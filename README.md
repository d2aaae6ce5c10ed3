# Reko core models in Dafny

This project models five small cores of the Reko decompiler and proves what
they promise.

- **SSA state** (`analysis.dfy`, over the intermediate code of `code.dfy`). It
  is the SSA bookkeeping of one procedure. A table maps each identifier to its
  SSA record, which holds one defining statement and the list of statements
  that use it. The blocks hold ordered statement lists. The model covers:
  - the operations that edit lists and records together: inserting a
    `DefInstruction`, inserting an alias assignment after a definition,
    deleting a statement, rebinding definitions, and adding or removing uses;
  - the validator, which compares the records with the statements;
  - the query that transposes the phi arguments of a block into one binding
    list per predecessor.
- **Annotation list** (`collections.dfy`): user comments keyed by address.
  Storing "no text" at an address removes its entry.
- **Float96** (`lib.dfy`): the Motorola 68881 96-bit extended-precision value.
  The model covers negation, the zero test, the lossy conversion to an IEEE
  754 binary64 (section 3.4 of IEEE 754-2008), and the `IConvertible`
  failures.
- **PowerPC rendering** (`powerpc.dfy`): instruction mnemonics with the
  record-form ".", address operands, and condition-register bit operands
  ("cr3+eq").
- **RISC-V FPU rewriter helpers** (`riscv.dfy`): NaN-boxing, slicing and
  deposit, following section 12.2 of the RISC-V Unprivileged ISA (20191213).
  Rewrites append to an emitter.

How the model is organised:

- The SSA state, the statement lists, the annotation dictionary and the
  rewriter's emitter are updated in place in the source. They are classes
  whose methods state their whole new state.
- Validation errors are values of a `ValidationError` datatype, one
  constructor per message of the source.
- Each validator is a method whose list of errors is proved duplicate-free
  and equal to a declarative set of errors.
- Separate lemmas prove that this set is empty exactly when the table agrees
  with the statements.

## Model

| member | source | states |
|---|---|---|
| Analysis.SsaState.constructor | src/Core/Analysis/SsaState.cs:46-50 | a new state is over the given procedure with an empty identifier table |
| Analysis.LastDefPosition | src/Core/Analysis/SsaState.cs:70-78 | the result is the index of the last `DefInstruction` of the list, or -1 when there is none |
| Analysis.EntryInsertionKeepsPrologue | src/Core/Analysis/SsaState.cs:99-104 | inserting a `DefInstruction` just after the last one keeps the entry block's definitions a prologue: everything before the position is a `DefInstruction` and nothing after it is |
| Analysis.SsaState.EnsureDefInstruction | src/Core/Analysis/SsaState.cs:90-109 | a known identifier returns its existing record and changes nothing. Otherwise the table gains one fresh record, whose defining statement is a new `DefInstruction` of the identifier in `b`. That statement is inserted once: after the last `DefInstruction` in the entry block, at the end in any other block of the procedure. All other statements keep their order. The block's predecessor list is unchanged. |
| Analysis.SsaState.AddDefInstruction | src/Core/Analysis/SsaState.cs:94-108 | the creating branch: a fresh record keyed by the identifier, a fresh statement at the entry-block or end-of-block position, and the state stays valid. The block's predecessor list is unchanged. |
| Analysis.SsaState.InsertStatement | src/Core/Analysis/SsaState.cs:100-108 | the list becomes the old list with the statement inserted at the position, and the procedure stays well formed (each statement listed once, in its own block). The block's predecessor list is unchanged. |
| Analysis.AliasRunEnd | src/Core/Analysis/SsaState.cs:294-297 | the scan stops after the maximal run of alias assignments that follows the start: everything it skipped is an alias assignment, and the next statement, if any, is not |
| Analysis.SsaState.InsertAfterDefinition | src/Core/Analysis/SsaState.cs:292-304 | the new statement carries the assignment, its block and its address. It is inserted right after `stmBefore` and the alias run that follows it. The assignment's destination is the record's identifier. An absent destination gets a fresh record defined by the new statement, and an existing record is returned unchanged. The block's predecessor list is unchanged. |
| Analysis.SsaState.DeleteStatement | src/Core/Analysis/SsaState.cs:313-322 | records defined by `stm` lose their definition and no record names `stm` as its definition any more. The records of the identifiers `stm` uses drop every listing of `stm`. The first occurrence of `stm` leaves its block, and when that block belongs to the procedure `stm` is no longer in it. The block's predecessor list is unchanged. |
| Analysis.SsaState.ReplaceDefinitions | src/Core/Analysis/SsaState.cs:347-354 | exactly the records defined by `stmOld` now name `stmNew`; no use list and no other record changes |
| Analysis.SsaState.AddDefinitions | src/Core/Analysis/SsaState.cs:361-372 | the records of the identifiers `stm` defines, and only those, name `stm`; no record is added and no use list changes |
| Analysis.SsaState.RemoveUses | src/Core/Analysis/SsaState.cs:378-384 | for a statement, the record of each identifier it uses drops every listing of it; for null, nothing changes; definitions are untouched |
| Analysis.SsaState.RemoveExpressionUses | src/Core/Analysis/SsaState.cs:392-396 | each record drops one listing of the statement per occurrence of its identifier in the expression |
| Analysis.SsaState.AddUses | src/Core/Analysis/SsaState.cs:402-406 | each record gains one listing of the statement per use of its identifier by the statement's instruction |
| Analysis.SsaState.AddExpressionUses | src/Core/Analysis/SsaState.cs:413-417 | each record gains one listing of the statement per occurrence of its identifier in the expression |
| Analysis.AddCopies | src/Core/Analysis/SsaState.cs:402-417 | adding k listings raises the statement's count in the use list by k and changes no other count |
| Analysis.RemoveCopies | src/Core/Analysis/SsaState.cs:392-396 | removing k listings lowers the statement's count by k, down to at most zero, and changes no other count |
| Analysis.RemoveAll | src/Core/Analysis/SsaState.cs:378-384 | the statement's count drops to zero and no other count changes |
| Analysis.AddThenRemoveRestores | src/Core/Analysis/SsaState.cs:392-417 | adding uses and then removing the same uses restores the use list up to order |
| Analysis.StoredCounts | src/Core/Analysis/SsaState.cs:214-224 | an identifier has a count exactly when its record lists the statement; the count is positive and equals the number of listings |
| Analysis.CheckDeadUses | src/Core/Analysis/SsaState.cs:157-170 | one error for each pair of record and listed use that is not a statement of the procedure, and no other errors |
| Analysis.ReportIncorrectUses | src/Core/Analysis/SsaState.cs:183-193 | one "incorrect" error per identifier whose stored count exceeds its actual count, where a missing actual count counts as 0 |
| Analysis.ReportMissingUses | src/Core/Analysis/SsaState.cs:194-204 | one "there is no" error per identifier whose actual count exceeds its stored count, where a missing stored count counts as 0 |
| Analysis.ReportCountMismatches | src/Core/Analysis/SsaState.cs:181-204 | the two kinds together for one statement, each error once |
| Analysis.CountMismatchesExact | src/Core/Analysis/SsaState.cs:183-204 | an identifier gets an "incorrect" error iff stored > actual, and a "there is no" error iff actual > stored |
| Analysis.CountMismatchesEmptyIff | src/Core/Analysis/SsaState.cs:181-204 | a statement reports no count error iff stored and actual counts agree for every identifier |
| Analysis.StatementCountErrorsEmptyIff | src/Core/Analysis/SsaState.cs:179-204 | a statement reports no count error iff the records list it exactly as often as it uses each identifier |
| Analysis.CountErrorsEmptyIff | src/Core/Analysis/SsaState.cs:179-205 | the count errors of all statements are empty iff every statement's counts agree |
| Analysis.CheckUses | src/Core/Analysis/SsaState.cs:175-206 | the dead-use errors and every statement's count errors, each once; no errors iff the recorded uses are consistent with the statements |
| Analysis.UseErrorsEmptyIff | src/Core/Analysis/SsaState.cs:157-206 | no use error iff every listed use is in the procedure and every statement's counts agree |
| Analysis.FirstDefinitionAt | src/Core/Analysis/SsaState.cs:231-251 | the definition kept for an identifier is the first statement, in procedure order, that defines it |
| Analysis.DefinedHasFirstDefinition | src/Core/Analysis/SsaState.cs:231-251 | every identifier some statement defines has a kept definition |
| Analysis.UndefinedHasNoFirstDefinition | src/Core/Analysis/SsaState.cs:231-251 | an identifier no statement defines has no kept definition |
| Analysis.FirstDefinerUnique | src/Core/Analysis/SsaState.cs:236-250 | the first definer of an identifier is unique |
| Analysis.MultipleDefinitionErrorSound | src/Core/Analysis/SsaState.cs:236-244 | every multiple-definition error names a statement that defines the identifier after its first definer, together with that first definer |
| Analysis.MultipleDefinitionErrorComplete | src/Core/Analysis/SsaState.cs:236-244 | every repeat definer after the first is reported against the first definer |
| Analysis.MultipleDefinitionErrorsCharacterized | src/Core/Analysis/SsaState.cs:236-244 | a multiple-definition error is reported iff it is such a redefinition |
| Analysis.MultipleDefinitionErrorsEmptyIff | src/Core/Analysis/SsaState.cs:231-251 | no multiple-definition error iff every identifier has at most one definer |
| Analysis.LookupIsDefinedBy | src/Core/Analysis/SsaState.cs:253-258 | with single definers, the looked-up definition (null when absent) is the unique statement that defines the identifier, or null when none does |
| Analysis.DefinitionsSnoc | src/Core/Analysis/SsaState.cs:233-250 | one more statement adds exactly its new identifiers to the kept definitions and one error per identifier already kept |
| Analysis.RecordDefinitions | src/Core/Analysis/SsaState.cs:234-249 | for one statement, the identifiers seen for the first time are kept with it, and each identifier already kept gives one multiple-definition error naming the earlier definer |
| Analysis.CollectDefinitions | src/Core/Analysis/SsaState.cs:231-251 | the kept definitions are each identifier's first definer, and the errors are exactly the multiple-definition errors, each once |
| Analysis.ReportIncorrectDefinitions | src/Core/Analysis/SsaState.cs:253-268 | one error per record whose definition differs from the kept definition, or from null when there is none |
| Analysis.ReportMissingIdentifiers | src/Core/Analysis/SsaState.cs:269-280 | one error per defined identifier that has no record |
| Analysis.IncorrectDefinitionErrorsEmptyIff | src/Core/Analysis/SsaState.cs:253-268 | with single definers, no mismatch error iff every record names the statement that defines its identifier, or null when none does |
| Analysis.MissingIdentifierErrorsEmptyIff | src/Core/Analysis/SsaState.cs:269-280 | no missing-record error iff every defined identifier has a record |
| Analysis.DefinitionErrorsEmptyIff | src/Core/Analysis/SsaState.cs:229-280 | no definition error iff identifiers have single definers, records name them, and every defined identifier has a record |
| Analysis.CheckDefinitions | src/Core/Analysis/SsaState.cs:229-280 | the three kinds of definition error, each once; no errors iff the recorded definitions are consistent |
| Analysis.CheckAll | src/Core/Analysis/SsaState.cs:136-140 | the use errors and the definition errors together, each once; none iff both checks pass |
| Analysis.SsaState.ValidateUses | src/Core/Analysis/SsaState.cs:175-206 | `CheckUses` applied to the table's recorded uses and the procedure's statements; the state is left unchanged |
| Analysis.SsaState.ValidateDefinitions | src/Core/Analysis/SsaState.cs:229-280 | `CheckDefinitions` applied to the table's recorded definitions and the procedure's statements; the state is left unchanged |
| Analysis.SsaState.Validate | src/Core/Analysis/SsaState.cs:136-140 | all use and definition errors, each once; none iff the table is consistent with the procedure |
| Analysis.PhiAssignments | src/Core/Analysis/SsaState.cs:447-449 | only phi assignments are selected |
| Analysis.PhiAssignmentsConcat | src/Core/Analysis/SsaState.cs:447-449 | the selection keeps statement order: the phis of a prefix of the block come before those of the rest |
| Analysis.PhiAssignmentsSelect | src/Core/Analysis/SsaState.cs:447-449 | an instruction is selected iff it is a phi assignment of one of the block's statements |
| Analysis.PhiRow | src/Core/Analysis/SsaState.cs:450-453 | a phi gives one binding per argument, each of the phi's destination storage to that argument's value, in order |
| Analysis.ZipMany | src/Core/Analysis/SsaState.cs:454-456 | column p holds the p-th entry of every row, in row order; there are as many columns as the shortest row has entries |
| Analysis.ZipManyLength | src/Core/Analysis/SsaState.cs:454-456 | there are at least n columns iff every row has at least n entries |
| Analysis.PhiStripes | src/Core/Analysis/SsaState.cs:445-463 | no columns give an empty map. Otherwise the result is defined iff the predecessors are distinct and every phi has an argument for each of them, and then its keys are exactly the predecessors. |
| Analysis.PhiStripesEntry | src/Core/Analysis/SsaState.cs:459-462 | predecessor p maps to a list with one entry per phi, whose k-th entry binds the k-th phi's destination storage to its p-th argument |
| Analysis.UseBindings | src/Core/Analysis/SsaState.cs:467-473 | defined iff every use expression is an identifier, and then one binding per use, of its storage to the expression, in order |
| Analysis.PredecessorPhiIdentifiers | src/Core/Analysis/SsaState.cs:443-477 | no predecessors give an empty map. One predecessor maps to the block's use bindings. More than one give the phi stripes. |
| Code.StatementsOf | src/Core/Analysis/SsaState.cs:159-162 | the procedure's statements are exactly those of its blocks |
| Code.IndexOf | src/Core/Analysis/SsaState.cs:295 | the index of the first occurrence, or -1 iff the element is absent |
| Code.InsertAt | src/Core/Analysis/SsaState.cs:302 | the element is at the position and the other elements keep their order on either side |
| Code.RemoveFirst | src/Core/Analysis/SsaState.cs:322 | a present element loses one occurrence and the list shrinks by one; an absent one leaves the list unchanged |
| Code.RemoveFirstRemovesFirst | src/Core/Analysis/SsaState.cs:322 | the occurrence removed is the first one, and the elements before and after it keep their order |
| Code.RemoveFirstSubsequence | src/Core/Analysis/SsaState.cs:322 | removal adds nothing, and in a duplicate-free list the element is gone afterwards |
| Code.InsertKeepsDistinct | src/Core/Analysis/SsaState.cs:103 | inserting a new element keeps the list duplicate-free and adds exactly that element |
| Collections.AnnotationList.constructor | src/Core/Collections/AnnotationList.cs:34-37 | a new list is empty |
| Collections.AnnotationList.FromSequence | src/Core/Collections/AnnotationList.cs:39-43 | the annotated addresses are those of the sequence, and each annotation's text is found at its address; duplicates are excluded because adding one fails |
| Collections.MapOf | src/Core/Collections/AnnotationList.cs:39-43 | the keys of the dictionary the constructor's loop builds are the sequence's addresses |
| Collections.MapOfLookup | src/Core/Collections/AnnotationList.cs:39-43 | with distinct addresses each annotation's text is stored at its address |
| Collections.AnnotationList.Get | src/Core/Collections/AnnotationList.cs:47-52 | None iff the address has no annotation, its text otherwise |
| Collections.AnnotationList.Set | src/Core/Collections/AnnotationList.cs:53-60 | storing None removes the entry and storing a text assigns it; reading back gives what was stored; every other address keeps its entry |
| Collections.AnnotationList.Remove | src/Core/Collections/AnnotationList.cs:63-67 | the entry for the address is gone and every other entry is unchanged |
| Collections.AnnotationList.Enumerate | src/Core/Collections/AnnotationList.cs:69-74 | exactly one annotation per stored address, carrying its stored text |
| Collections.EnumerateStep | src/Core/Collections/AnnotationList.cs:71-73 | listing one more stored, not yet listed address keeps the listing duplicate-free and faithful to the stored texts |
| Lib.BiasedExponent | src/Core/Lib/Float96.cs:92 | the biased exponent is at most 0x7FFF |
| Lib.Negate | src/Core/Lib/Float96.cs:58-61 | the significand and the biased exponent are unchanged and the sign is flipped |
| Lib.NegateInvolution | src/Core/Lib/Float96.cs:58-61 | negating twice gives the original value |
| Lib.IsZero | src/Core/Lib/Float96.cs:63-66 | zero of either sign: the significand is zero and the exponent word is 0x0000 or 0x8000. `Lib.IsZeroIgnoresSign` states that the sign does not matter |
| Lib.IsZeroIgnoresSign | src/Core/Lib/Float96.cs:63-66 | the zero test does not depend on the sign |
| Lib.BitsFields | src/Core/Lib/Float96.cs:121-124 | sign, exponent field and fraction can be read back from the 64-bit pattern |
| Lib.SpecialPatterns | src/Core/Lib/Float96.cs:98-108 | signed zeros, signed infinities and the runtime's NaN have their standard binary64 patterns |
| Lib.Compose | src/Core/Lib/Float96.cs:121-124 | the composed value has a valid exponent field and fraction |
| Lib.ToDoubleAsWritten | src/Core/Lib/Float96.cs:89-126 | the conversion exactly as written yields a valid binary64 |
| Lib.AsWrittenProducesSubnormal | src/Core/Lib/Float96.cs:114-124 | unbiased exponent -1023 passes the underflow test and produces the subnormal pattern 0x0008000000000000 for 1.5 × 2^-1023 |
| Lib.ToDouble | src/Core/Lib/Float96.cs:89-126 | the corrected conversion yields a valid binary64 |
| Lib.ToDoubleZeroExponent | src/Core/Lib/Float96.cs:94-99 | a zero biased exponent gives zero of the input's sign, whatever the significand |
| Lib.ToDoubleMaxExponent | src/Core/Lib/Float96.cs:100-110 | the maximal exponent gives signed infinity for a zero significand, NaN otherwise |
| Lib.ToDoubleOutOfRange | src/Core/Lib/Float96.cs:114-119 | exponents below the range give signed zero and above it give signed infinity |
| Lib.ToDoubleInRange | src/Core/Lib/Float96.cs:114-124 | in range: the input's sign, the exponent field ee + 1023 in 1..2046, and bits 11-62 of the significand as fraction |
| Lib.ToDoubleNeverSubnormal | src/Core/Lib/Float96.cs:120-124 | the corrected conversion never yields a subnormal |
| Lib.ToDoubleAgreesOffBoundary | src/Core/Lib/Float96.cs:116-117 | the corrected and the as-written conversion agree except at unbiased exponent -1023 |
| Lib.ToDoubleNegate | src/Core/Lib/Float96.cs:89-124 | negating the input flips the sign of every non-NaN result and leaves NaN unchanged |
| Lib.Convert | src/Core/Lib/Float96.cs:138-214 | Byte succeeds, with 0, iff the value is zero. Boolean, Char, SByte and DateTime always fail as invalid casts, and so does Byte for nonzero values. The other numeric targets are not implemented. |
| Lib.ConvertIgnoresSign | src/Core/Lib/Float96.cs:153-158 | no conversion depends on the sign |
| PowerPC.MakeInstruction | src/Arch/PowerPC/PowerPcInstruction.cs:39-45 | the three operands in order, the record flag, and class Linear |
| PowerPC.RenderMnemonic | src/Arch/PowerPC/PowerPcInstruction.cs:55-57 | the mnemonic's name, then "." for a record form. `PowerPC.RenderMnemonicShape` and `PowerPC.ParseRenderMnemonic` state its shape and that it reads back |
| PowerPC.RenderMnemonicShape | src/Arch/PowerPC/PowerPcInstruction.cs:55-57 | the rendering is the mnemonic followed by "." iff the instruction sets CR0 |
| PowerPC.ParseRenderMnemonic | src/Arch/PowerPC/PowerPcInstruction.cs:55-57 | mnemonic and flag can be read back from the rendering |
| PowerPC.Decimal | src/Arch/PowerPC/PowerPcInstruction.cs:87 | the field number renders as a non-empty string of decimal digits |
| PowerPC.DecimalRoundTrip | src/Arch/PowerPC/PowerPcInstruction.cs:87 | the decimal rendering of a number reads back as that number |
| PowerPC.ConditionBitNamesDistinct | src/Arch/PowerPC/PowerPcInstruction.cs:88-95 | the four bits have four different names |
| PowerPC.RenderCondition | src/Arch/PowerPC/PowerPcInstruction.cs:84-97 | at least two characters: an optional "crN+" field prefix, then the bit's name. `PowerPC.RenderConditionShape` and `PowerPC.ParseRenderCondition` state its shape and that it reads back |
| PowerPC.RenderConditionShape | src/Arch/PowerPC/PowerPcInstruction.cs:86-96 | the "cr" prefix appears iff the condition exceeds 3, and the last two characters name bit condition & 3 |
| PowerPC.ParseRenderCondition | src/Arch/PowerPC/PowerPcInstruction.cs:84-97 | every condition can be read back from its rendering, so distinct conditions render differently |
| PowerPC.RenderOperand | src/Arch/PowerPC/PowerPcInstruction.cs:62-72 | an address operand renders as "$" followed by its text |
| PowerPC.RenderOperands | src/Arch/PowerPC/PowerPcInstruction.cs:59 | one rendering per operand, in order |
| RiscV.MinusOneAllOnes | src/Arch/RiscV/RiscVRewriter.Fpu.cs:40-41 | the constant -1 is all ones at every width |
| RiscV.MaybeNanBox | src/Arch/RiscV/RiscVRewriter.Fpu.cs:35-48 | a narrower expression is sequenced under an all-ones constant of the missing width, and a wider one is returned as is; the result is as wide as the wider of the two |
| RiscV.NanBoxValue | src/Arch/RiscV/RiscVRewriter.Fpu.cs:35-48 | the boxed value holds the expression in its low bits and ones above them |
| RiscV.MaybeSlice | src/Arch/RiscV/RiscVRewriter.Fpu.cs:62-72 | a slice iff the expression is wider than the width used; the result is as wide as the narrower of the two |
| RiscV.SliceValue | src/Arch/RiscV/RiscVRewriter.Fpu.cs:62-72 | the result is the expression's low bits |
| RiscV.SliceUndoesNanBox | src/Arch/RiscV/RiscVRewriter.Fpu.cs:35-72 | slicing a boxed value to its own width gives the value back |
| RiscV.DepositOrMove | src/Arch/RiscV/RiscVRewriter.Fpu.cs:50-60 | a deposit keeps the destination's width |
| RiscV.DepositOrMoveValue | src/Arch/RiscV/RiscVRewriter.Fpu.cs:50-60 | the low bits of the stored value are the source, and a wider destination keeps its upper bits |
| RiscV.FpuRewriter.MaybeDpb | src/Arch/RiscV/RiscVRewriter.Fpu.cs:50-60 | exactly one assignment to the destination is appended: a deposit at bit 0 when the destination is wider, a move otherwise |
| RiscV.FpuRewriter.RewriteFcvt | src/Arch/RiscV/RiscVRewriter.Fpu.cs:87-92 | one assignment is appended: the conversion of the sliced source, boxed to the destination, as wide as the wider of the target type and the destination |
| RiscV.FpuRewriter.RewriteFBinOp | src/Arch/RiscV/RiscVRewriter.Fpu.cs:136-142 | one assignment is appended: the operation on both sliced sources, boxed to the destination |
| RiscV.FpuRewriter.RewriteFMove | src/Arch/RiscV/RiscVRewriter.Fpu.cs:175-186 | a source wider than the move first gets sliced into the temporary. Then the destination is assigned the boxed temporary, or the boxed source. |
| RiscV.FMoveDeliversLowBits | src/Arch/RiscV/RiscVRewriter.Fpu.cs:174-186 | the destination's low bits are the source's low bits of the move's width |
| RiscV.FpuRewriter.RewriteFneg | src/Arch/RiscV/RiscVRewriter.Fpu.cs:188-193 | one assignment is appended: the negation of the sliced source, boxed to the destination |

## Left out

- Dump and Write of the SSA state are debug and text output, so they are not modelled.
- The conditional `ValidateUses()` overload only routes messages to the debug output, so it is not modelled.
- The validator's messages are formatted strings in the source. The model uses the `ValidationError` datatype, and the error sink becomes the returned list.
- The order in which the validators report their errors is not part of any validator's contract. Each contract gives the set of errors and that each appears once.
- SsaIdentifierCollection is not part of this model. Its `Add` is modelled as create-if-absent: it returns the existing record, or a fresh one keyed by the given identifier. The renaming of a fresh SSA identifier is not modelled, so assigning the record's identifier back to the alias assignment's destination is the identity.
- The definition and use collectors are not part of this model. They are functions over a closed instruction datatype; the `Other` instruction carries its own definitions and uses.
- IdentifierUseRemover, ExpressionUseRemover and InstructionUseAdder are not part of this model. `RemoveUses(stm)` removes every listing of `stm` from the records of the identifiers it uses. `RemoveUses(stm, e)` and `AddUses` remove or add one listing per occurrence.
- EnumerableEx.ZipMany is not part of this model. It is taken as a transposition truncated to the shortest row, with no columns when there are no rows.
- Analysis.PredecessorPhiIdentifiers: returns None where the source throws: a predecessor index past the columns, a predecessor listed twice (Dictionary.Add), or a use expression that is not an identifier.
- Analysis.SsaState.EnsureDefInstruction: `Block.Procedure` is not modelled. The entry-block test uses the state's own entry block, which is the block's own procedure's entry block for the blocks of that procedure, so `b` is required to be one of them.
- Analysis.SsaState.AddDefInstruction: as for EnsureDefInstruction, `b` is required to be a block of the state's procedure, because `Block.Procedure` is not modelled.
- Analysis.SsaState.DeleteStatement: the statement is proved absent from its block only when that block belongs to the procedure, whose blocks list each statement once. Otherwise only its first occurrence is proved removed.
- Collections.AnnotationList.FromSequence: duplicate addresses, which make the source throw, are a precondition.
- The AnnotationChanged event is not modelled. An `Address` is reduced to its linear offset, and its text form is left out.
- Float96 ToString, GetTypeCode (always Object) and the real-number meaning of the binary64 result are left out. ToDouble is modelled as the binary64 fields and bit pattern.
- The Float96 bit operations are written as integer arithmetic on unsigned 16- and 64-bit words: a mask is a remainder, bit 15 is a comparison, and the shift is a division.
- Lib.Convert: the `NotImplementedException` conversions and `ToType` share one `NotImplemented` outcome, without their target types.
- The one-operand PowerPcInstruction constructor only stores the mnemonic; the operand and class defaults belong to MachineInstruction, which is not part of this model.
- MachineInstruction's operand layout (separators, and the rendering of registers and immediates) is not part of this model. Those operands carry their rendered text. Mnemonics are their names as strings.
- RISC-V RewriteOp, the binder and OffsetOf are not part of this model. Operands and the temporary are parameters.
- RewriteFcmp, RewriteFload, RewriteFmadd and the intrinsic rewrites are not modelled. They reuse MaybeSlice, MaybeNanBox and MaybeDpb, whose rules are proved.
- Floating point semantics are not modelled. Registers, temporaries and floating point operations take their bits from an arbitrary valuation.
- A binary operation takes its data type from its left operand.

## Findings

| source | as written | input that shows it | evidently intended | confidence | as-written member | corrected member |
|---|---|---|---|---|---|---|
| src/Core/Lib/Float96.cs:116 | the conversion underflows to zero only when the unbiased exponent is below -1023; at exactly -1023 the exponent field becomes 0 and the result is a binary64 subnormal that drops the explicit integer bit | Float96(0x3C00, 0xC000000000000000), that is 1.5 × 2^-1023, gives the pattern 0x0008000000000000 (2^-1023) | no subnormal results: lines 96-97 underflow to zero rather than produce denormals, and 0x0008000000000000 is the wrong value even as a subnormal (1.5 × 2^-1023 would be 0x000C000000000000); so underflow when the unbiased exponent is below -1022 | medium, not executed | Lib.ToDoubleAsWritten, Lib.AsWrittenProducesSubnormal | Lib.ToDouble, Lib.ToDoubleNeverSubnormal |
