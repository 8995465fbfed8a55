# LittleCompiler driver, modelled in Dafny

LittleCompiler compiles the LITTLE language to Tiny assembly. Its parser's
actions drive one object, `little::Driver` (`src/driver.h`, `src/driver.cpp`).
That object holds all the compiler's state:

- a symbol table of numbered scopes;
- the list of function records;
- the three-address IR node lists;
- the token buffer of the expression being parsed;
- counters for temporaries and labels;
- one node list per function.

The back end runs in six stages over that state, and this project models
all six:

1. **Scoped symbol table** (module `Symbols`): opening scopes, inserting
   entries with their storage names (`altName`), type lookup, local counts,
   and renumbering temporaries to stack slots.
2. **Function registry** (module `Functions`): creating records, adding
   parameters at stack slots `$6`, `$7`, …, the return slot, return values,
   find and overwrite.
3. **Expression lowering** (module `Lowering`): `interpretTree` reduces the
   token buffer. Parenthesised groups go first, then MULT/DIV left to right,
   then ADD/SUB left to right. Each reduction emits one typed node into a
   fresh `lpTmpVarN`.
4. **Tiny code generation** (module `CodeGen`): operand renaming, the
   scratch register, one block of instructions per node, and the program
   frame. A small abstract machine (`Machine`, `Exec`) states what stores,
   arithmetic, comparisons, calls and returns compute.
5. **Liveness** (module `Liveness`): the ordered kill-then-gen update of the
   live list, gen and kill sets, and the backward walk with its
   `liveVecStack`/`elseStack` merge at if/else markers.
6. **Register allocation** (module `RegAlloc`): four registers, the last
   four live entries per node, spills as `STOREI` nodes, and renaming of
   operands and return values.

Module `Records` holds the records of `driver.h` and the naming constants.
Module `Text` holds decimal rendering, `find != npos`, and the order of
`std::string` keys. Module `DriverState` holds the class `Driver`. Its fields
mirror the C++ object:

- `std::vector`, `std::list` and `std::stack` become `seq`;
- `std::map` becomes `map`;
- `tinyStream` becomes a `seq<string>` of lines.

Each method that the source writes as a loop is a Dafny method with the same
loop. It is proved equal to a specification function of the stage's module,
and the lemmas beside that function state what the source promises.

Three details of the code, which the model keeps as written:

- **Snapshot pairing.** liveVec does not pair each node with the live list
  before it. Node j gets the live list on entry to node j + 1, and the last
  node gets the list on entry to the first node
  (`Liveness.SnapshotPairing`).
- **Renaming.** `renameVars` renames op2 only when op1 differs from op2 or
  no entry declares op1. The cause is its else-if chain
  (`CodeGen.RenameOp2`).
- **Scope used by `getType`.** `getType` looks in the newest scope, not the
  scope of the function being generated.

## Model

| member | source | states |
|---|---|---|
| Text.DigitsValueOfNatToString | src/driver.cpp:329-330 | reading back the decimal text a stringstream gives a counter yields the counter |
| Text.PrefixedInjective | src/driver.cpp:318-335 | names built as a fixed prefix followed by a counter are equal only for equal counters |
| Text.ContainsIff | src/driver.cpp:146 | `find(p) != npos` holds exactly when p occurs at some index of the string, both directions |
| Text.BelowIrreflexive | src/driver.h:69 | no key sorts before itself in the string order that orders `functionMap` |
| Text.BelowTransitive | src/driver.h:69 | the key order is transitive |
| Text.BelowTotal | src/driver.h:69 | of two different keys one sorts before the other |
| Text.HasLeast | src/driver.h:69 | every non-empty key set has a first key, so the map's iteration order exists |
| Text.LeastUnique | src/driver.h:69 | the first key is unique, so the iteration order is determined |
| Records.MarkerOfCode | src/driver.h:37 | an `ifFlags` code denotes a marker exactly when it is 0, 1, 2 or 3 |
| Records.MarkerCodeRoundTrip | src/driver.h:37 | markers and codes 0..3 correspond one to one, both ways round |
| Records.NewFunction | src/driver.cpp:893-898 | a new record has the given name, no parameters and no return values |
| Records.TempName | src/driver.cpp:327-335 | the n-th temporary's name contains `lpTmpVar`, and the text after its 8-character prefix is n in decimal |
| Records.LabelName | src/driver.cpp:318-325 | the n-th label is `lpTmpLbl` followed by n in decimal |
| Records.TempNamesDistinct | src/driver.cpp:318-335 | different counters give different temporaries and different labels |
| Functions.FindIndex | src/driver.cpp:918-926 | the index of the first record with the name, or the length when none has it |
| Functions.FindFunc | src/driver.cpp:918-926 | None exactly when no record has the name; otherwise the first record with it |
| Functions.FindFuncOr | src/driver.cpp:918-926 | `findFuncData(s, f)` leaves f as the first record named s, and leaves f as it was when there is none |
| Functions.Overwrite | src/driver.cpp:928-936 | same length; afterwards the lookup of f's name gives f; every other record is unchanged; nothing changes when no record has f's name |
| Functions.OverwriteKeepsOthers | src/driver.cpp:928-936 | overwriting never changes the lookup of any other name |
| Functions.AddParam | src/driver.cpp:899-908 | the parameter goes at the end, the earlier parameters are kept, and parameter k keeps slot `$(6+k)` |
| Functions.AddReturn | src/driver.cpp:910-916 | the return type is set; parameters and return values are unchanged |
| Functions.ReturnSlotSeparate | src/driver.cpp:899-916 | the return slot `$(6+#params)` is none of the parameters' slots, and the parameters' slots are pairwise distinct |
| Symbols.AltNameFor | src/driver.cpp:144-157 | storage name: empty in the global scope; for a temporary, `r` followed by the text after the 8-character prefix; otherwise `$-P`, where P is the entry's 1-based position in its scope |
| Symbols.Insert | src/driver.cpp:135-161 | the entry is appended to scope `scopeVec.size()` with that storage name; every other scope is unchanged |
| Symbols.InsertKeepsLocalsNamed | src/driver.cpp:145-153 | inside a function, every local keeps slot `$-(position)`, so the locals' slots stay pairwise distinct |
| Symbols.FirstTyped | src/driver.cpp:360-383 | the type of the first entry that names one of the node's operands and has type INT, FLOAT or STRING; never VOID |
| Symbols.FirstTypedAppend | src/driver.cpp:357-359 | searching the newest scope followed by the globals searches the newest scope first |
| Symbols.ParamType | src/driver.cpp:386-397 | the type of the first parameter naming an operand, records named as the current scope taken in order and each one's parameters in order: no earlier parameter of such a record names one; None exactly when no such parameter exists |
| Symbols.FirstMention | src/driver.cpp:388-395 | the type of an entry naming an operand, with no earlier entry naming one; None exactly when no entry does |
| Symbols.TypeOfSteps | src/driver.cpp:355-400 | `getType`: the first typed entry of the newest scope naming an operand; failing that, the first such global; failing that, the type of the first parameter of the current function naming one, whatever that type is; failing all, INT |
| Symbols.ScopeIndex | src/driver.cpp:852-861 | -1 exactly when no scope has the name; otherwise the 1-based position of the first scope that has it |
| Symbols.NumLocals | src/driver.cpp:852-891 | `getNumLocals` is the number of positions of the scope holding an entry that is not a temporary, and it plus the number of temporaries is `getNumLocalsAndTemps` |
| Symbols.NonTempCount | src/driver.cpp:882-888 | the positions holding non-temporaries number the entry count minus the temporaries |
| Symbols.NumLocalsSplits | src/driver.cpp:869-891 | when locals precede temporaries, `getNumLocals` is the position of the first temporary: every entry before it is a local, every entry from it on a temporary |
| Symbols.RenumberFromKeeps | src/driver.cpp:1043-1051 | renumbering changes only storage names, and only those of temporaries |
| Symbols.RenumberFromSlot | src/driver.cpp:1042-1050 | the i-th entry, when it is a temporary, gets `$-(start + number of temporaries before it)` |
| Symbols.RenumberTemps | src/driver.cpp:1033-1054 | only the scope of f's name changes (scope 0 when no scope has that name), and it is renumbered from `$-(locals+1)`; the scope numbers are unchanged |
| Symbols.RenumberKeepsNamed | src/driver.cpp:1033-1054 | renumbering keeps each local at its slot and each global without a storage name |
| Symbols.RenumberTempsFrame | src/driver.cpp:1033-1054 | every scope keeps its length, its identifiers, its types and every entry that is not a temporary |
| Symbols.RenumberedSlotsContiguous | src/driver.cpp:1033-1054 | when every local precedes every temporary in its scope, entry i gets `$-(i+1)`, so all slots are distinct |
| Symbols.TempBeforeLocalCollides | src/driver.cpp:151 | a temporary declared before a function's one local is renumbered onto that local's slot |
| Symbols.RenumberCollidesWhenTempsFirst | src/driver.cpp:1042-1050 | the concrete scope [`lpTmpVar0`, `x`] ends with both entries in `$-2`, so the local-first condition is needed |
| Lowering.AdjustOpCode | src/driver.cpp:337-353 | the node gets `F` exactly when `getType` is FLOAT and `I` exactly when it is INT; otherwise nothing; the returned type is never VOID |
| Lowering.Suffixed | src/driver.cpp:191-200 | GE, LE, NE, LABEL, JUMP, RETURN, LINK, PUSH, POP and JSR stay as they are; every other opcode is suffixed |
| Lowering.CreateTemp | src/driver.cpp:327-335 | the next `lpTmpVarN` is declared in the newest scope, the counter goes up by one, it becomes `mostRecentTempVar`, and nothing else changes |
| Lowering.TempAltName | src/driver.cpp:144-148 | inside a function, temporary n is stored as `rn`; in the global scope it has no storage name |
| Lowering.ReduceShape | src/driver.cpp:283-295 | one reduction appends to both lists one typed node `a op b` whose result is the new temporary, and declares that temporary |
| Lowering.ReduceExtends | src/driver.cpp:283-295 | one reduction extends the state by one node whose operands are the operator's neighbours and whose opcode starts with the operator |
| Lowering.PassExtends | src/driver.cpp:281-313 | an operator loop only adds typed reductions into fresh temporaries |
| Lowering.GroupScanExtends | src/driver.cpp:252-279 | the parenthesis loop only adds typed reductions into fresh temporaries |
| Lowering.LowerExtends | src/driver.cpp:246-316 | lowering only appends typed reductions: one node per new temporary, numbered on from the counter, declared in the newest scope and appended to both lists; nothing else changes |
| Lowering.GroupScanNoParens | src/driver.cpp:252-279 | the parenthesis loop leaves a buffer without parentheses untouched |
| Lowering.PassFlat | src/driver.cpp:281-313 | on an alternating operand/operator buffer a loop reduces every one of its operators, one temporary each, and leaves the other operators and the alternation intact |
| Lowering.PassOf | src/driver.cpp:283-310 | every node an operator loop emits is a reduction of one of that loop's operators |
| Lowering.FlatPhases | src/driver.cpp:281-313 | on a buffer without parentheses, the MULT/DIV loop removes every MULT and DIV and keeps the ADD/SUB count before the ADD/SUB loop runs |
| Lowering.LowerFlat | src/driver.cpp:246-316 | a buffer without parentheses emits exactly one node per MULT/DIV/ADD/SUB token, (n-1)/2 in all, and leaves one token |
| Lowering.LowerFlatOrder | src/driver.cpp:281-313 | within one level, every MULT/DIV node comes before every ADD/SUB node |
| Lowering.PassLeftToRight | src/driver.cpp:281-313 | on an alternating buffer, the operator at position p gives the pass's j-th node, j the number of its operators before p; that node reduces the operator with the token after it and with the token before it, or with the temporary of the previous reduction when the operator two places back was reduced too |
| Lowering.MulNodesFirst | src/driver.cpp:281-297 | the MULT and DIV nodes of a parenthesis-free buffer are the first ones lowering emits, node by node as the pass makes them, left to right; the pass makes one per MULT/DIV |
| Lowering.AddNodesNext | src/driver.cpp:298-313 | the ADD and SUB nodes follow, node by node as the second pass makes them over the buffer the first pass leaves, left to right |
| Lowering.AddOnlyLeftToRight | src/driver.cpp:246-316 | a chain of additions and subtractions is lowered left to right, each node taking the previous node's temporary as its left operand |
| Lowering.SubtractLeft | src/driver.cpp:298-313 | `a SUB b SUB c` emits `t := a - b` and then `t' := t - c`, with t and t' the next two temporaries: subtraction associates to the left |
| Lowering.GroupFirst | src/driver.cpp:254-268 | a leading group without inner groups is lowered on its own, before its surroundings, and replaced by its temporary |
| Lowering.ScanInside | src/driver.cpp:252-278 | inside an open group the parenthesis loop collects every token of a well-formed expression, inner groups included, and returns to the depth it started at |
| Lowering.ScanAtom | src/driver.cpp:252-278 | at depth 0 the loop replaces an operand or a whole group by what it lowers to, and continues just after it |
| Lowering.GroupInPlace | src/driver.cpp:252-278 | a well-formed group after any group-free prefix, nested to any depth, is lowered on its own first; lowering then continues over the buffer with the group replaced by its last temporary |
| Lowering.ScanTop | src/driver.cpp:252-278 | the parenthesis loop turns a well-formed buffer into an alternating one, one operand per atom, having reduced every operator inside its groups |
| Lowering.PassesFlat | src/driver.cpp:281-313 | the two passes over an alternating buffer reduce every operator, one temporary each, and leave one token |
| Lowering.LowerCount | src/driver.cpp:246-316 | on a well-formed buffer with groups nested to any depth, lowering emits exactly one node and one temporary per MULT, DIV, ADD and SUB token and leaves a single token |
| Lowering.SingleOperandGroup | src/driver.cpp:261-265 | `( x )` emits no node and is replaced by the previous `mostRecentTempVar`, not by x |
| Lowering.LowerOperand | src/driver.cpp:246-316 | a lone operand emits nothing and stays as it is |
| Lowering.ExtendsDeclaresTemps | src/driver.cpp:327-331 | lowering declares only temporaries, after the scope's existing entries |
| Lowering.ExtendsKeepsLayout | src/driver.cpp:145-153 | lowering keeps locals at their slots, globals without storage names, and locals before temporaries |
| Liveness.IndexOf | src/driver.cpp:1241-1245 | the index of the first occurrence of the name, or the length when it is absent |
| Liveness.RemoveFirst | src/driver.cpp:1241-1246 | `erase` of the first match: the list is unchanged when the name is absent and one shorter otherwise |
| Liveness.RemoveFirstNoDup | src/driver.cpp:1241-1246 | in a duplicate-free list, erasing the first match drops the name and keeps the order |
| Liveness.KillAllSpec | src/driver.cpp:1238-1247 | on a duplicate-free list the kill loop drops exactly the kill members and keeps the rest in order |
| Liveness.KillAllSound | src/driver.cpp:1238-1247 | on any list the kill loop keeps every name that is not killed and adds none |
| Liveness.GenAllNoDup | src/driver.cpp:1250-1266 | the gen loop keeps a list free of duplicates |
| Liveness.GenAllSpec | src/driver.cpp:1250-1266 | the untouched names keep their order in front, and the gen members follow at the back |
| Liveness.GenAllElems | src/driver.cpp:1250-1266 | on any list the result holds exactly the live names and the gen names |
| Liveness.UseSetUpdateSpec | src/driver.cpp:1234-1269 | on a duplicate-free list, the result holds a name exactly when it is in gen, or is live and not killed; it stays duplicate-free and keeps the order |
| Liveness.UseSetUpdateSound | src/driver.cpp:1234-1269 | on any list, no needed name is lost and nothing outside gen and live is added |
| Liveness.KillLeavesDuplicate | src/driver.cpp:1241-1245 | a name present twice survives being killed once |
| Liveness.Find | src/driver.cpp:1241-1245 | the search loop stops at the first occurrence, or at the end |
| Liveness.KillLoop | src/driver.cpp:1238-1247 | the in-place kill loop computes the kill update |
| Liveness.GenLoop | src/driver.cpp:1250-1266 | the in-place gen loop (move to the back, or append) computes the gen update |
| Liveness.UpdateUseSet | src/driver.cpp:1234-1269 | `updateUseSet` is the kill loop followed by the gen loop |
| Liveness.GenSet | src/driver.cpp:1292-1340 | arithmetic reads op1 and op2, STORE reads op1, WRITE reads the result, RETURN reads the current return value, each minus literals, globals and parameters; PUSH reads a non-empty result unless it is a global or a parameter, literals included; RETURN counts down; an out-of-range return counter is None |
| Liveness.KillSet | src/driver.cpp:1342-1358 | the result is killed exactly for STORE, READ, arithmetic and POP; nothing else is killed |
| Liveness.LoweredNode | src/driver.cpp:1295-1309 | a node made by lowering kills its temporary and reads exactly its tracked operands |
| Liveness.Reverse | src/driver.cpp:975 | `reverse` puts element i at position n-1-i |
| Liveness.Merge | src/driver.cpp:991-1016 | an if-end saves the live list; the other markers keep the snapshots and the return counter; a marker with no merge changes nothing |
| Liveness.EndsIfStep | src/driver.cpp:1012-1016 | at an if-end the live list is saved and false is pushed |
| Liveness.ElseStep | src/driver.cpp:1006-1011 | at an else, the walk continues from the saved list and saves the then-branch list, with the else recorded on elseStack |
| Liveness.IfElseStep | src/driver.cpp:994-1005 | at an if-start after an else, the saved else-branch list is appended and both saved entries are dropped |
| Liveness.IfNoElseStep | src/driver.cpp:1004-1005 | at an if-start without an else, only the saved entry is dropped |
| Liveness.Step | src/driver.cpp:982-1018 | each node pushes the live list it leaves as its snapshot |
| Liveness.Run | src/driver.cpp:981-1019 | the walk adds exactly one snapshot per node |
| Liveness.RunSnaps | src/driver.cpp:1018 | the k-th snapshot is the live list right after the walk passes node k |
| Liveness.LiveVec | src/driver.cpp:966-1022 | liveVec exists exactly when the walk gets through, and has one entry per node |
| Liveness.SnapshotPairing | src/driver.cpp:1021-1022 | read from the back, liveVec gives node j what is live on entry to node j+1, and gives the last node what is live on entry to the first node |
| Liveness.MergeAt | src/driver.cpp:991-1016 | the merge on the two stacks, in place, is the merge function, under the else rule given as argument (as written, or corrected) |
| Liveness.WalkStep | src/driver.cpp:982-1018 | one iteration of the loop is the step function, under the else rule given as argument |
| Liveness.LiveWalk | src/driver.cpp:966-1023 | the loop, the dropped last snapshot and the prepended final list give liveVec, under the else rule given as argument |
| Liveness.MergeFollowsNesting | src/driver.cpp:991-1016 | under the corrected else rule: with well-nested markers no merge reads an empty stack, and elseStack mirrors the nesting |
| Liveness.NestedRunSucceeds | src/driver.cpp:977-1019 | under the corrected else rule: a function with well-nested markers and enough return values is walked to the end, and the return counter ends at #retVals - 1 - #returns |
| Liveness.NestedLiveVec | src/driver.cpp:966-1022 | under the corrected else rule: liveVec exists for every function whose markers are well nested |
| Liveness.LeakAsWritten | src/driver.cpp:1006-1011 | as written, the else's extra elseStack entry makes a nested if/else lose a variable that is live at the function's entry |
| Liveness.LeakCorrected | src/driver.cpp:991-1016 | with the innermost entry marked instead, the same variable is live at entry |
| RegAlloc.FirstHolding | src/driver.cpp:1175-1187 | the lowest register holding the name; None exactly when no register holds it |
| RegAlloc.RegisterNumber | src/driver.cpp:1175-1187 | empty exactly when no register holds the name; otherwise the name of a register holding it |
| RegAlloc.RegisterNumberUnique | src/driver.cpp:1175-1187 | under the no-two-registers invariant, the answer is the one register holding the name |
| RegAlloc.NextFree | src/driver.cpp:1189-1205 | the lowest of r0..r2 that is free, otherwise r3, even when r3 is taken |
| RegAlloc.SpillCandidate | src/driver.cpp:1097-1111 | the first register in key order whose variable is none of the node's op1, op2 and result; None exactly when no register qualifies |
| RegAlloc.SpillAlwaysPossible | src/driver.cpp:1095-1111 | with all four registers holding distinct variables, some register is spillable, because a node names at most three |
| RegAlloc.AllocOne | src/driver.cpp:1084-1115 | one live variable causes at most one spill, and afterwards a register holds it |
| RegAlloc.EvictFull | src/driver.cpp:1095-1114 | with all four taken, the spilled register is the one `getNextAvailableRegister` refills, and its variable is unused by the node |
| RegAlloc.EvictNotFull | src/driver.cpp:1094-1114 | with a register free, there is no spill and a free register is filled |
| RegAlloc.AllocOneOK | src/driver.cpp:1084-1115 | keys stay within r0..r3 and no variable is in two registers; any spill is a `STOREI` of a variable the node does not use |
| RegAlloc.AllocOneSpec | src/driver.cpp:1084-1115 | a held variable changes nothing; a spill happens only when all four are taken, and the spilled register takes the variable; otherwise a free register takes it |
| RegAlloc.AllocAll | src/driver.cpp:1084-1116 | one node's variables cause at most one spill each |
| RegAlloc.AllocAllSpec | src/driver.cpp:1084-1116 | a node's live variables keep the register invariant, emit only `STOREI` spills of variables the node does not use, and leave the last variable held |
| RegAlloc.LastFour | src/driver.cpp:1068-1082 | only the last four live entries are kept, in order, or all of them when there are at most four |
| RegAlloc.LastFourLoop | src/driver.cpp:1069-1082 | the erase-front/push-back loop computes the last four entries |
| RegAlloc.AdjustOperand | src/driver.cpp:1153-1170 | a non-empty operand held in a register becomes that register's name; otherwise it is unchanged |
| RegAlloc.AdjustNode | src/driver.cpp:1150-1173 | renaming operands keeps the opcode and the marker |
| RegAlloc.SubstRet | src/driver.cpp:1119-1132 | only the current return value changes: a non-literal one held in a register becomes that register's name |
| RegAlloc.AllocPrefix | src/driver.cpp:1062-1145 | after j nodes, the return counter equals the returns met, the record differs only in its return values, and the invariant holds |
| RegAlloc.NodeStepSpec | src/driver.cpp:1064-1145 | one node appends its spills and then itself, renamed to the registers; the output before it is unchanged |
| RegAlloc.IsHeld | src/driver.cpp:1086-1093 | the `alreadyReg` loop decides whether some register holds the variable |
| RegAlloc.FindSpill | src/driver.cpp:1097-1111 | the spill search loop finds the spill candidate |
| RegAlloc.PlaceVar | src/driver.cpp:1086-1114 | search, spill and fill for one variable compute the single-variable allocation |
| RegAlloc.AllocVars | src/driver.cpp:1084-1116 | the loop over a node's live variables computes the allocation of all of them |
| RegAlloc.RenameRetVal | src/driver.cpp:1119-1132 | the return-value renaming step is `SubstRet` |
| RegAlloc.AllocNode | src/driver.cpp:1064-1144 | one turn of the node loop is the node step |
| RegAlloc.RegisterAllocation | src/driver.cpp:1056-1148 | `registerAllocation` produces the allocated node list and the updated record |
| CodeGen.Lines | src/driver.cpp:407-427 | the stream holds one line per instruction, in order |
| CodeGen.Subst | src/driver.cpp:523-539 | the storage name of an entry declaring the name, or the name itself when none does |
| CodeGen.RenameOp1 | src/driver.cpp:524-530 | with distinct identifiers and storage names apart from them, op1 becomes its storage name |
| CodeGen.RenameOp2 | src/driver.cpp:527-534 | op2 becomes its storage name, except that it stays as written when it equals op1 and op1 is declared |
| CodeGen.RenameResult | src/driver.cpp:527-538 | the result becomes its storage name, except when it equals a declared op1 or op2 |
| CodeGen.RenameLoop | src/driver.cpp:523-539 | the scan over one scope's entries is the renaming function |
| CodeGen.FindScope | src/driver.cpp:515-521 | the scope search finds the first scope with the name |
| CodeGen.RenameVars | src/driver.cpp:509-559 | locals first, then parameters, only outside the global scope |
| CodeGen.Scratch | src/driver.cpp:607-621 | the scratch register is the lowest `rN` that differs from the renamed op1, op2 and result, and N < 4 |
| CodeGen.FindScratch | src/driver.cpp:607-621 | the search loop finds that register |
| CodeGen.ArithIntegerExact | src/driver.cpp:642-709 | the integer instruction is chosen exactly for ADDI, SUBI, DIVI and MULTI; every other opcode of each family gets the real one |
| CodeGen.Pushes | src/driver.cpp:473-476 | `push r0` … `push r3`, in that order |
| CodeGen.Pops | src/driver.cpp:502-505 | `pop r3` … `pop r0`, in that order |
| CodeGen.ControlSpec | src/driver.cpp:623-632 | only a label met while waiting enters a function (its scope and record); a return advances `numRets`; the function's last return resets the wait |
| CodeGen.ReturnsCycle | src/driver.cpp:825-831 | inside a function, return i reads return value i, and the last one restarts the wait for the next function's label |
| CodeGen.DeclsSpec | src/driver.cpp:429-449 | there is one declaration per global that is not a temporary, and each declaration names such a global |
| CodeGen.ProgramFrame | src/driver.cpp:407-427 | the order is: declarations, `push`, `push r0..r3`, `jsr main`, `sys halt`, the nodes' code, `end` |
| CodeGen.DeclareGlobals | src/driver.cpp:429-449 | the declaration loop gives the declaration lines |
| CodeGen.PushRegisters | src/driver.cpp:451-478 | the loop gives `push r0..r3` |
| CodeGen.PopRegisters | src/driver.cpp:480-507 | the loop gives `pop r3..r0` |
| CodeGen.GenerateNormalCode | src/driver.cpp:591-850 | the generation loop gives the specified code for every node |
| CodeGen.CopyViaCopies | src/driver.cpp:635-640 | `push t; move a t; move t b; pop t` copies a into b and leaves everything else, stack included, as it was |
| CodeGen.StoreMoves | src/driver.cpp:633-641 | a STORE copies the renamed op1 into the renamed result, whatever the scratch register |
| CodeGen.ArithComputes | src/driver.cpp:642-709 | an add, subtract or multiply sets the renamed result to op1 combined with op2, and nothing else changes |
| CodeGen.CompareOperands | src/driver.cpp:710-766 | the compare instruction sees the values op1 and op2 had, including when op2 goes through the scratch register |
| CodeGen.PushesSave | src/driver.cpp:473-476 | the pushes put r0..r3's values on the stack |
| CodeGen.PopsRestore | src/driver.cpp:502-505 | the pops take them back into r0..r3 |
| CodeGen.RegistersRestored | src/driver.cpp:833-837 | r0..r3 and the stack are as they were before a call, whatever the callee did to the registers |
| CodeGen.JsrBracket | src/driver.cpp:833-837 | a JSR is `push r0..r3`, `jsr`, `pop r3..r0` |
| CodeGen.ReturnValueMoves | src/driver.cpp:798-824 | a returned variable's value is moved to the return slot before `unlnk` and `ret`, and the stack is restored |
| CodeGen.LinkCountsLocals | src/driver.cpp:844-847 | `link N`, where N is the number of entries of the function's scope that are not temporaries, which is the entry count minus the temporaries |
| CodeGen.NodeBalanced | src/driver.cpp:591-850 | every node other than an explicit PUSH or POP emits as many pushes as pops |
| DriverState.PushesFor | src/driver.cpp:566-577 | one push per entry of the newest scope declaring the argument |
| DriverState.ParamPushesInOrder | src/driver.cpp:561-580 | arguments declared once each are pushed once each, in call order |
| DriverState.UndeclaredArgumentSkipped | src/driver.cpp:561-580 | an argument the newest scope does not declare is not pushed at all |
| DriverState.LiveFunctionFrame | src/driver.cpp:966-1031 | the analysis rewrites only the analysed function's record, and only its return values; the symbol table changes only in temporaries' storage names |
| DriverState.AnalyseOne | src/driver.cpp:958-961 | the entry for the name is replaced by the analysed list, and liveNodeList grows by exactly that list |
| DriverState.AnalyseAllOpened | src/driver.cpp:952-964 | the analysis never fills a scope that was not opened |
| DriverState.AnalyseAllOutput | src/driver.cpp:952-964 | the map keeps its names, and liveNodeList only grows at the end |
| DriverState.InKeyOrderSpec | src/driver.cpp:957-958 | the iteration order lists every key once, in strictly ascending string order |
| DriverState.SortedKeys | src/driver.cpp:957-958 | the keys are produced in the map's iteration order |
| DriverState.RenumberLoop | src/driver.cpp:1042-1051 | the in-place loop over the scope gives the renumbering function |
| DriverState.Driver.constructor | src/driver.cpp:19-35 | global scope, empty tables and lists, counters 0, `mostRecentTempVar` `!0!`, liveness off |
| DriverState.Driver.SetLiveness | src/driver.cpp:41-43 | sets the flag |
| DriverState.Driver.SetScope | src/driver.cpp:163-172 | the N-th scope becomes current and `symbolTable[N]` is empty; index 0 is never opened |
| DriverState.Driver.InsertSymbolTableEntry | src/driver.cpp:135-161 | appends to the newest scope with the storage name above and keeps the driver invariant |
| DriverState.Driver.ModifyTempVarAltNames | src/driver.cpp:1033-1054 | the table becomes the renumbering for f's name |
| DriverState.Driver.CreateFunction | src/driver.cpp:893-898 | a fresh record is appended at the end |
| DriverState.Driver.AddParamToFunc | src/driver.cpp:899-908 | only the last record changes, gaining the parameter in the next slot |
| DriverState.Driver.AddReturnToFunc | src/driver.cpp:910-916 | only the last record changes, getting its type and return slot |
| DriverState.Driver.AddRetVal | src/driver.cpp:938-941 | only the last record changes, and its return values gain the id at the end |
| DriverState.Driver.FindFuncData | src/driver.cpp:918-926 | returns the first record with the name, or the given record |
| DriverState.Driver.OverwriteFuncData | src/driver.cpp:928-936 | the first record with f's name becomes f |
| DriverState.Driver.GenerateLabel | src/driver.cpp:318-325 | the label is fresh, is pushed on `labelStack`, and the counter goes up by one |
| DriverState.Driver.CreateTempVar | src/driver.cpp:327-335 | the next temporary is declared in the newest scope and becomes the most recent |
| DriverState.Driver.PushBackCurNode | src/driver.cpp:191-210 | curNode, suffixed unless exempt, is appended to both lists; it is then cleared, flags included |
| DriverState.Driver.PushParams | src/driver.cpp:561-580 | both lists gain the pushes for the arguments |
| DriverState.Driver.PushArgument | src/driver.cpp:565-577 | both lists gain the pushes for one argument |
| DriverState.Driver.PopParams | src/driver.cpp:582-589 | both lists gain s pops into nothing, or none when s ≤ 0 |
| DriverState.Driver.PopRetVal | src/driver.cpp:943-950 | both lists gain a pop into the last function's `assVar` |
| DriverState.Driver.EmitReduction | src/driver.cpp:285-294 | one reduction, with its node on both lists |
| DriverState.Driver.OperatorPass | src/driver.cpp:281-313 | the in-place erase/insert loop is one operator pass |
| DriverState.Driver.LowerTokens | src/driver.cpp:246-316 | the recursive in-place lowering of the buffer is the lowering function |
| DriverState.Driver.InterpretTree | src/driver.cpp:239-244 | lowers `treeStack`, only by appending reductions, and keeps the driver invariant |
| DriverState.Driver.FunctionalLiveness | src/driver.cpp:966-1031 | the map's entry, the table and the records become the analysis result |
| DriverState.Driver.PrepareLiveness | src/driver.cpp:966-1023 | the record is found, the temporaries are renumbered, and liveVec is computed |
| DriverState.Driver.PerformLivenessAnalysis | src/driver.cpp:952-964 | with liveness off, nothing changes; with it on, every function is analysed in key order and its nodes are appended to liveNodeList |
| DriverState.Driver.AnalyseNext | src/driver.cpp:958-961 | one function is analysed and appended |
| DriverState.Driver.TinyGeneration | src/driver.cpp:407-427 | the stream becomes the program for `nodeList`, or for `liveNodeList` when liveness is on |

## Left out

- `parse_file`, the scanner and the generated parser (src/driver.cpp:45-76) are not modelled. The parser's semantic actions become the inputs of the operations: arguments to the methods, and the initial `treeStack`, `curNode`, `functionMap` and `ifFlags` markers.
- `compiler_main.cpp` is not part of this model. `TinyGeneration` and `PerformLivenessAnalysis` are separate operations, and nothing fixes their order.
- `error`, `printSymbolTable`, `printNodeList`, `printLiveSet` and `printTinyCode` only write to the console.
- The commented-out local push/pop blocks inside `tinyPushRegisters`/`tinyPopRegisters` are not modelled.
- `getNumberRegistersUsed` and `tinyGenerateLiveCode` are declared without a definition.
- The `registerOnly` field is never used.
- The `lastTouched` out-parameter of `interpretTree` is dropped. Its value is always the state's `mostRecentTempVar`.
- `isdigit(c)`, written `isdigit(c) == true` at line 804, is modelled as "a decimal digit". The literal test overall is "first character is a digit or '.'".
- The first character of an empty `std::string` is modelled as NUL.
- `erase(end())` at src/driver.cpp:1021 is undefined behaviour, so the model follows the evident intent: the last snapshot is dropped and the final live list goes in front.
- Other undefined behaviour becomes an error result or a precondition:
  - reading `retVals` out of range gives `None` in `GenSet`, `LiveFunction` and `GenAll`; it is a precondition of `RegisterAllocation`;
  - `top()` or `pop()` on an empty `liveVecStack`/`elseStack` gives `None` in `Merge`;
  - an operator without a neighbour in the token buffer is left in place (`Pass`).
- `symbolTable[k]` on a missing key inserts an empty vector in the source. Reads are modelled with an empty default (`Lookup`). The extra empty keys are not modelled, so `Symbols.Insert` states the key set it changes.
- `createFunction` leaves the return type uninitialised. The model starts it at VOID.
- Nodes that the source builds without setting `ifFlags` carry `NoMarker`: the `interpretTree` reductions, the `pushParams`/`popParams`/`popRetVal` nodes and spills.
- RegAlloc.NextFree: when all four registers are taken it names r3 and overwrites it, as the source does. Allocation never calls it that way, because the spill frees a register first (`RegAlloc.EvictFull`).
- `regMap` is keyed by register number rather than by the strings `"r0"`..`"r3"`. The two key orders agree.
- The order of `std::string` keys compares characters by their code (`Text.Below`); locales are not modelled.
- The Tiny machine in `CodeGen` is abstract. Cells map names to integers; there is a stack; `Combine` gives arithmetic; `sys`, `jsr` and jumps do not execute.
- CodeGen.ArithComputes requires the renamed op2 to differ from the renamed result. When they are equal, the source's `move op1 result` overwrites op2 first, so the contract does not cover that case.
- CodeGen.CompareOperands states only what the compare instruction sees. Branching is not modelled.
- Liveness.KillLeavesDuplicate documents that the kill loop removes only the first occurrence. `UseSetUpdateSpec` therefore assumes a duplicate-free list, and `UseSetUpdateSound` covers the general case.
- DriverState.Driver.FunctionalLiveness: the source edits the map's list in place through a reference; the model reassigns the map entry.
- DriverState.Driver.FunctionalLiveness uses the corrected else rule (see Findings), as do `PrepareLiveness` and `PerformLivenessAnalysis`.
- DriverState.Driver.ModifyTempVarAltNames, CreateTempVar, EmitReduction, OperatorPass and LowerTokens do not state the `Valid` invariant; `InterpretTree` proves it for the whole lowering.
- DriverState.Driver.TinyGeneration and PerformLivenessAnalysis require the generation or analysis to succeed. When it fails, the source reads out of range.
- Symbols.RenumberedSlotsContiguous requires every local to come before every temporary in its scope. `Symbols.RenumberCollidesWhenTempsFirst` shows that the source gives no such guarantee otherwise.
- LowerFlatOrder states only that the MULT/DIV nodes come before the ADD/SUB nodes. The left-to-right order and the operands of each node are stated by `Lowering.PassLeftToRight`, `Lowering.MulNodesFirst` and `Lowering.AddNodesNext`.
- GroupFirst covers only a leading group without inner groups. `Lowering.GroupInPlace` states the general case: a group after any group-free prefix, nested to any depth.
- The node-by-node statements (`Lowering.MulNodesFirst`, `Lowering.AddNodesNext`) are proved for parenthesis-free buffers. For buffers with groups, `Lowering.GroupInPlace` reduces them to that case one group at a time, and `Lowering.LowerCount` states the count.
- MergeFollowsNesting is proved for the corrected else rule only. Under the rule as written, elseStack keeps one stale entry per if/else (see Findings), so it does not mirror the nesting.
- NestedRunSucceeds is proved for the corrected else rule only, for the same reason.
- NestedLiveVec is proved for the corrected else rule only, for the same reason.
- `getType` during code generation looks in the newest scope, as the source does, not in the function being generated.

## Findings

| source | as written | input that shows it | evidently intended | confidence | as-written member | corrected member |
|---|---|---|---|---|---|---|
| src/driver.cpp:1006-1011 | at an else, `elseStack.push(true)` adds a second entry on top of the `false` its if-end pushed, and the if-start pops only one, so each if/else leaves a stale `false` behind | a function `if (..) { if (..) {} else {} } else { write v }`, walked backwards: the outer if-start finds the stale `false`, drops the else-branch list, and v is not live at entry | the else marks the innermost entry instead (`elseStack.top() = true`), so the outer if-start merges its else branch and v is live at entry | not executed | Liveness.LeakAsWritten | Liveness.LeakCorrected |
