# SBF backend: late legalisation, branch editing and the patchable-load simplifier

This project models two parts of the SBF (Solana BPF) LLVM backend in Dafny and
proves properties of them.

**Instruction-info hooks (`SBFInstrInfo.cpp`).**
- Register-to-register copies (`copyPhysReg`).
- Spilling and reloading a register to a stack slot (`storeRegToStackSlot`, `loadRegFromStackSlot`).
- Expansion of the `MEMCPY` pseudo into load/store pairs (`expandMEMCPY`, `expandPostRAPseudo`).
- Analysis and editing of a block's terminators (`analyzeBranch`, `insertBranch`, `removeBranch`).

**The patchable-load simplifier (`SBFMISimplifyPatchable.cpp`).**
- It looks for a load `dst = LD* src, 0` whose address `src` is defined only by an `LD_imm64` of a
  relocation global, that is a global carrying the access-offset (AMA) or the type-id attribute.
- It forwards `src` to the users of `dst`, or for a 32-bit `dst` copies its low half.
- For access-offset globals, it folds the relocation into the `ADD_rr` → load/store chains and the
  shifts that use it. These become `CORE_LD64`, `CORE_LD32`, `CORE_ST` and `CORE_SHIFT` pseudo
  instructions.
- It erases the load when the walk moves past it.

Files:
- `machine.dfy` (module `Machine`): the shared data model.
  - The target configuration: the `NewMemEncoding` and `HasExplicitSignExt` flags.
  - Opcodes, grouped into memory accesses, CORE pseudos, ALU operations and control flow. Each
    memory opcode carries its `_V1`/`_V2` encoding.
  - `MemShape`, an independent table giving the direction, width, register width and encoding of
    every memory opcode.
  - Operands, instructions and blocks.
- `expand.dfy` (module `PseudoExpand`): copies, spill/reload and the MEMCPY expansion. The expansion
  is a method with a loop, checked against a functional plan of load/store pairs.
- `branch.dfy` (module `Branch`): `analyzeBranch`, `insertBranch` and `removeBranch` as functions on
  a block. Each is proved equal to a closed-form description read off the block's trailing run of
  `JMP` and debug instructions.
- `defuse.dfy` (module `DefUse`): def-use facts computed from the instruction list.
  - `UniqueDef` models `getUniqueVRegDef`: the one instruction defining a register, if exactly one
    does.
  - `UseSites` gives the use operands of a register in program order.
  - Instructions carry an identity so that the set of skipped loads survives edits.
- `patchable.dfy` (module `SimplifyPatchable`): the simplifier as pure functions over a function's
  instructions (its blocks laid end to end), with its properties.

## Model

| member | source | states |
|---|---|---|
| `PseudoExpand.CopyPhysReg` | llvm/lib/Target/SBF/SBFInstrInfo.cpp:36-52 | Succeeds exactly when both registers are GPR or both are GPR32, and is fatal otherwise. On success it inserts exactly one move, defining the destination and reading the source with the given kill flag. The move copies the class's width. A GPR32 copy uses the `_v2` move exactly when the target has explicit sign extension. |
| `PseudoExpand.StoreRegToStackSlot` | llvm/lib/Target/SBF/SBFInstrInfo.cpp:143-167 | Succeeds exactly for GPR and GPR32, and is fatal otherwise. It inserts one register store of the class's byte width in the configured encoding, with operands (register, frame index, 0). |
| `PseudoExpand.LoadRegFromStackSlot` | llvm/lib/Target/SBF/SBFInstrInfo.cpp:169-189 | Succeeds exactly for GPR and GPR32. It inserts one load of the class's byte width in the configured encoding, with operands (register, frame index, 0). |
| `PseudoExpand.SpillReloadAgree` | llvm/lib/Target/SBF/SBFInstrInfo.cpp:143-189 | Spill and reload succeed for the same classes. When they succeed, both access the same slot and offset with the same width and encoding. |
| `PseudoExpand.AccessWidth` | llvm/lib/Target/SBF/SBFInstrInfo.cpp:64-85 | An alignment is accepted exactly when it is in {1,2,4,8,16}. The access width is then min(alignment, 8), so 16 maps to 8. |
| `PseudoExpand.LoadOp` | llvm/lib/Target/SBF/SBFInstrInfo.cpp:64-66 | The load chosen for a width is the B/H/W/D load of that width in the given encoding, as described by `MemShape`. |
| `PseudoExpand.StoreOp` | llvm/lib/Target/SBF/SBFInstrInfo.cpp:64-66 | The store chosen for a width is the B/H/W/D register store of that width in the given encoding. |
| `PseudoExpand.RemainderWidth` | llvm/lib/Target/SBF/SBFInstrInfo.cpp:106-120 | The remainder access is the smallest of 1, 2, 4, 8 that holds the bytes left, and it is less than twice their number. |
| `PseudoExpand.RemainderFitsWidth` | llvm/lib/Target/SBF/SBFInstrInfo.cpp:115-120 | The remainder access is never wider than the access width, so the "more than 8 bytes left" failure cannot be reached. |
| `PseudoExpand.ExpandMemcpy` | llvm/lib/Target/SBF/SBFInstrInfo.cpp:54-132 | Fatal exactly for an unsupported alignment. Otherwise the loop emits, for each planned pair in order, a load into the scratch register immediately followed by a store of it at the same offset. The plan is `len / width` pairs at offsets `i * width`, then one pair ending at `len` when bytes are left. That pair's offset is taken modulo 2^32, so for `len < width` with `len` in {3, 5, 6, 7} it wraps (see `PseudoExpand.MemcpyOutOfRange`). |
| `PseudoExpand.MemcpyInBounds` | llvm/lib/Target/SBF/SBFInstrInfo.cpp:87-129 | When the copy is at least one access wide, no access starts before 0 or ends after `len`. |
| `PseudoExpand.MemcpyCovers` | llvm/lib/Target/SBF/SBFInstrInfo.cpp:87-129 | When the copy is at least one access wide, every byte of [0, len) is inside some pair's access. |
| `PseudoExpand.MemcpyOutOfRange` | llvm/lib/Target/SBF/SBFInstrInfo.cpp:99-117 | Some access reaches past `len` exactly when `len` is shorter than the access width and is 3, 5, 6 or 7. In those cases the 32-bit offset `len - w'` wraps around. |
| `PseudoExpand.MemcpyThirteenAlignFour` | llvm/lib/Target/SBF/SBFInstrInfo.cpp:87-129 | 13 bytes at alignment 4 expand to words at 0, 4 and 8, then a byte at 12. |
| `PseudoExpand.MemcpyThreeAlignFour` | llvm/lib/Target/SBF/SBFInstrInfo.cpp:99-117 | 3 bytes at alignment 4 expand to one word pair at offset 2^32 - 1. |
| `PseudoExpand.MemcpyEmpty` | llvm/lib/Target/SBF/SBFInstrInfo.cpp:99-104 | A zero-length copy emits no pair. |
| `PseudoExpand.ExpandPostRAPseudo` | llvm/lib/Target/SBF/SBFInstrInfo.cpp:134-141 | A non-MEMCPY instruction is left alone, with result false. A MEMCPY is replaced in place by its expansion, with result true: the `2 * (len / w + (len % w > 0 ? 1 : 0))` instructions that take its place are exactly the lowering of the MEMCPY plan, the same one `PseudoExpand.ExpandMemcpy` produces. The pseudo is erased and the rest of the block is unchanged. It is fatal for an unsupported alignment. |
| `Branch.AnalyzeFromSpec` | llvm/lib/Target/SBF/SBFInstrInfo.cpp:198-242 | The backward scan (skip debug, stop at a non-terminator, give up on other terminators, handle JMP) yields the outcome read off the trailing run of JMP/debug instructions: its topmost JMP and the instruction above it. |
| `Branch.AnalyzeBranch` | llvm/lib/Target/SBF/SBFInstrInfo.cpp:191-243 | The result is true exactly when the instruction above the trailing run is a non-JMP terminator. The edited block is always a prefix of the original. Without modification, the block, FBB and Cond are untouched and TBB is the topmost JMP's target. With modification, the block is cut after that JMP, or before it when it targets the layout successor (TBB none), and Cond and FBB are cleared. |
| `Branch.InsertBranch` | llvm/lib/Target/SBF/SBFInstrInfo.cpp:245-264 | Fatal exactly for a non-empty condition. Otherwise it appends one `JMP TBB` after the unchanged block and returns 1. |
| `Branch.RemoveFromSpec` | llvm/lib/Target/SBF/SBFInstrInfo.cpp:270-285 | The restarting backward scan erases every JMP of the trailing run, keeps its debug instructions, and counts the erased JMPs. |
| `Branch.RemoveBranch` | llvm/lib/Target/SBF/SBFInstrInfo.cpp:266-286 | The instructions above the trailing run are unchanged. The run keeps only its debug instructions, in order. The count is the number of JMPs in the run. |
| `Branch.InsertThenRemove` | llvm/lib/Target/SBF/SBFInstrInfo.cpp:245-286 | On a block not ending in a JMP, insertBranch followed by removeBranch restores the block and returns 1. |
| `Branch.AnalyzeAfterInsert` | llvm/lib/Target/SBF/SBFInstrInfo.cpp:191-264 | After insertBranch to `t`, analyzeBranch is not stuck and finds TBB `t`. With modification allowed, Cond is cleared and FBB reset. Without it, the block, FBB and Cond are left untouched. With modification allowed, a JMP to the layout successor is erased again, which restores the original block. |
| `DefUse.UniqueDefSpec` | llvm/lib/Target/SBF/SBFMISimplifyPatchable.cpp:358-360 | The unique definition is found exactly when one instruction, and no other, defines the register. Otherwise no instruction or at least two define it. |
| `DefUse.UseSitesSpec` | llvm/lib/Target/SBF/SBFMISimplifyPatchable.cpp:253-256 | The use list of a register holds exactly its use operands. |
| `DefUse.UniqueDefFrame` | llvm/lib/Target/SBF/SBFMISimplifyPatchable.cpp:161-163 | Edits that leave every instruction's definitions of a register as they were leave its unique definition unchanged. |
| `SimplifyPatchable.LoadClassesMatchShape` | llvm/lib/Target/SBF/SBFMISimplifyPatchable.cpp:124-146 | `isLDX64`/`isLDX32` hold exactly for the 64-/32-bit-register loads of the selected encoding, and `isLoadInst` exactly for all loads of that encoding. The other encoding's loads are never classified. |
| `SimplifyPatchable.StoreClassesMatchShape` | llvm/lib/Target/SBF/SBFMISimplifyPatchable.cpp:95-122 | `isSTX64`/`isSTX32` hold exactly for the 64-/32-bit register stores of the selected encoding, and `isST` exactly for its immediate stores. |
| `SimplifyPatchable.CandidateSpec` | llvm/lib/Target/SBF/SBFMISimplifyPatchable.cpp:342-379 | A load is a candidate exactly when all of these hold: it is a load of the selected encoding; it is not skipped; it has the form `dst = LD src, 0`; and the only definition of `src` is an `LD_imm64` of a global variable with the AMA or type-id attribute. AMA takes precedence. |
| `SimplifyPatchable.LoadUserSetAside` | llvm/lib/Target/SBF/SBFMISimplifyPatchable.cpp:311-317 | A load reached through the relocated register leaves the code untouched and goes into the skip set, so it is not a candidate right afterwards. |
| `SimplifyPatchable.SetAsideForGood` | llvm/lib/Target/SBF/SBFMISimplifyPatchable.cpp:346-347 | Every step of the walk keeps the skip set's entries, so a load set aside is never a candidate again, wherever it sits. |
| `SimplifyPatchable.ShiftUserFused` | llvm/lib/Target/SBF/SBFMISimplifyPatchable.cpp:201-213 | A register shift becomes `CORE_SHIFT` only when the relocated register is its operand 2, and the new instruction carries the relocation global as its operand 3. Once emitted, the new instruction is the same shift in immediate form by the relocation's value. Every other instruction is unchanged. |
| `SimplifyPatchable.CheckADDrrSpec` | llvm/lib/Target/SBF/SBFMISimplifyPatchable.cpp:148-199 | If the ADD is the only definition of its result, every eligible user of that result is replaced in place by its CORE form: `(op0, opcode, other ADD operand, global)` with the encoding's `CORE_LD64`/`CORE_LD32`/`CORE_ST`. Eligible means a load or store of the selected encoding with offset 0 that is not a store of the result itself. Every other instruction keeps its contents. Otherwise nothing changes. |
| `SimplifyPatchable.FusedAccess` | llvm/lib/Target/SBF/SBFMISimplifyPatchable.cpp:292-300 | Once emitted, a fused access through `R + 0` is the same access through the base register at the relocation's offset. |
| `SimplifyPatchable.FusedFormIdem` | llvm/lib/Target/SBF/SBFMISimplifyPatchable.cpp:166-177 | A CORE pseudo is never fused again. |
| `SimplifyPatchable.ForwardTypeId` | llvm/lib/Target/SBF/SBFMISimplifyPatchable.cpp:250-288 | Without CORE rewriting, processDstReg makes every use of `dst` read `src` with its kill flag cleared. All identities, opcodes and other operands stay the same. |
| `SimplifyPatchable.ForwardLeavesNoUse` | llvm/lib/Target/SBF/SBFMISimplifyPatchable.cpp:253-282 | After forwarding to a different register, `dst` has no use left. |
| `SimplifyPatchable.WideCandidate` | llvm/lib/Target/SBF/SBFMISimplifyPatchable.cpp:246-247 | A 64-bit type-id candidate stays in place and no COPY is inserted. Every use of `dst` now reads `src`, nothing else changes, and `dst` has no use left. |
| `SimplifyPatchable.NarrowCandidate` | llvm/lib/Target/SBF/SBFMISimplifyPatchable.cpp:218-244 | A 32-bit candidate gets exactly one `COPY dst = src:sub_32` inserted right before it, and the walk resumes after the load. For a type-id global that insertion is the only change. |
| `SimplifyPatchable.NarrowAmaCandidate` | llvm/lib/Target/SBF/SBFMISimplifyPatchable.cpp:218-244 | For an AMA global, a 32-bit candidate also gets the COPY right before it. Every other instruction is either unchanged or replaced by a four-operand CORE pseudo ending in the global, which happens through the users of the `SUBREG_TO_REG` widenings of `dst`. |
| `SimplifyPatchable.ForwardAma` | llvm/lib/Target/SBF/SBFMISimplifyPatchable.cpp:250-288 | With an AMA global, processDstReg leaves every instruction in one of two states. It is either a CORE pseudo with four operands whose last is the relocation global, or as it was, with each use of `dst` reading `src` with its kill flag cleared. |
| `SimplifyPatchable.WideAmaCandidate` | llvm/lib/Target/SBF/SBFMISimplifyPatchable.cpp:246-247 | A 64-bit AMA candidate stays in place and no COPY is inserted. Every instruction is a CORE pseudo carrying the global as its fourth operand, or keeps its opcode and operands with the uses of `dst` rewired to `src`. A use of `dst` survives only inside such a CORE pseudo, and the skip set only grows. |
| `SimplifyPatchable.TypeIdNoCore` | llvm/lib/Target/SBF/SBFMISimplifyPatchable.cpp:215-286 | A type-id candidate never produces a CORE pseudo, in any state, including one that already holds CORE pseudos from earlier AMA candidates. With a 64-bit register every instruction keeps its opcode. With a 32-bit register the only new instruction is the COPY before the load, and the rest of the code is shifted by one. |
| `SimplifyPatchable.RemoveLDChanged` | llvm/lib/Target/SBF/SBFMISimplifyPatchable.cpp:330-389 | removeLD reports a change exactly when the function holds a removable load. Without one, the function is returned unchanged. |
| `SimplifyPatchable.ProcessedLoadErased` | llvm/lib/Target/SBF/SBFMISimplifyPatchable.cpp:335-340 | When the walk processes a candidate load that is not the last instruction, the load is gone from the result, and no instruction of the final code carries its identity. This holds whether the load's users were forwarded, narrowed to a COPY or fused. |
| `SimplifyPatchable.ProcessCandidateIds` | llvm/lib/Target/SBF/SBFMISimplifyPatchable.cpp:215-248 | Handling a candidate only grows the skip set. Identities stay distinct, new instructions get fresh identities, and the load's identity remains only at the load's new position. |
| `SimplifyPatchable.LastCandidateKept` | llvm/lib/Target/SBF/SBFMISimplifyPatchable.cpp:381-388 | A candidate that is the last instruction is processed but never erased: no instruction is removed, and a 32-bit candidate adds its COPY. |

## Behaviour of the code worth noting

- MEMCPY of 13 bytes at alignment 4 ends with a byte access at offset 12, after words at 0, 4 and
  8, because `BytesLeft` is 1 (`PseudoExpand.MemcpyThirteenAlignFour`).
- A 32-bit access-offset candidate still reaches CORE rewriting, through the users of the
  `SUBREG_TO_REG` widenings of the loaded register (`NarrowUser`,
  `SimplifyPatchable.NarrowAmaCandidate`).
- The `LD_imm64` of the global stays, and the forwarded users read its register.

## Left out

- Pass plumbing is not modelled: pass registration, `skipFunction`, `initialize`, the pass factory,
  the `SBFInstrInfo` constructor and `initializeTargetFeatures`. The two target flags are the
  `Config` record.
- Debug locations and debug output have no effect on the result.
- Opcode numbers, register-class objects and `MachineRegisterInfo` are abstract. Whether a virtual
  register is 32-bit (class GPR32) is the `narrow` parameter of the simplifier.
- `SkipInsts` is a member set that persists across functions. The model starts each function with
  an empty set, and instruction identity stands in for pointer identity.
- LLVM use lists are not kept in program order. The model walks a program-order snapshot taken at
  the start of each loop. Each entry is a position and an operand index, re-checked against the
  current code when its turn comes. An entry whose operand no longer reads the register is passed
  over. A use copied into a new instruction at the same position and operand index (operand 0 of
  a fused CORE pseudo) is visited. A use at a position or index the snapshot does not list is not
  visited. LLVM would follow moved or erased operands through its iterators.
- Instructions with too few operands are treated as non-matches. LLVM would fail an assertion.
- The simplifier works on the function's blocks laid end to end. Every edit is relative to an
  instruction, and the pending erase crosses block boundaries as in the code.
- `PseudoExpand.ExpandMemcpy`: the length is bounded below 2^32, the range of the 32-bit
  `IterationNum`/`BytesLeft`. The `Offset` wrap-around is modelled explicitly.
- `PseudoExpand.ExpandPostRAPseudo`: a MEMCPY whose operands are not the expected register and
  immediate kinds is reported as fatal.
- The `BytesAdded`/`BytesRemoved` assertions are left out. The callers' obligations of
  `insertBranch` (a target block, and no second target without a condition) are preconditions of
  `Branch.InsertBranch`.
- `isUnpredicatedTerminator` is `IsTerminator`, because SBF has no predicated instructions.
- How the BTF emission step reads a CORE pseudo is modelled only as `Emit`, following the pattern
  description in the pass.
- `SimplifyPatchable.CheckADDrrSpec`: proved only for well-formed memory instructions. These have
  exactly three operands, and operand 1 is not a definition. The base operand must not define the
  ADD result. Without these conditions the unique-definition test could change during the walk.
- `SimplifyPatchable.NarrowAmaCandidate`: for AMA globals the changes are bounded (only CORE
  replacements), not characterised exactly, for the same reason as `WideAmaCandidate`.
- `SimplifyPatchable.ForwardAma`: bounded, not characterised exactly. A fused instruction is
  stated to be a four-operand CORE pseudo ending in the global. Which users are fused, and with
  which opcode and base, is not stated. The reason is the same as for `WideAmaCandidate`.
- `SimplifyPatchable.WideAmaCandidate`: for AMA globals the 64-bit path is bounded, not
  characterised exactly. Each instruction is either rewired or a CORE pseudo, but which users get
  fused depends on unique-definition tests. Those tests are evaluated against the code as it is
  being edited during the walk.
- `SimplifyPatchable.LastCandidateKept`: stated for a function whose only candidate is its last
  instruction.
- `SimplifyPatchable.ProcessedLoadErased`: the erase is stated through instruction identities. It
  is not stated as a length count, because processing one candidate can turn later loads into
  candidates.
