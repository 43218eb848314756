# LC-3 virtual machine core, modelled in Dafny

This project models the execution core of a 16-bit LC-3 virtual machine written in Rust. The core has five parts:

- the 4-bit opcode decoder;
- the register file: eight general registers plus the PC and COND slots, and the one-hot N/Z/P flag rule;
- a 65,536-word memory;
- one handler per instruction, including the TRAP service routines;
- the object-image loader and one fetch/execute iteration of the run loop.

Machine words are `bv16` and bytes are `bv8`, so `wrapping_add`, masks, shifts and `!` are bit-vector operations with no extra encoding. Memory is a map that holds a cell for every 16-bit address, so a read or write can never be out of range.

Every instruction, trap and step is a pure function, and the image loader `LoadImage` is a method with no side effects:

- The register handlers (`ExecAdd` to `ExecLea`) take the raw instruction and the register file, and also the memory where they read it. They return the new `RegisterFile`.
- The store handlers (`ExecSt`, `ExecSti`, `ExecStr`) return the new `Memory`.
- The trap routines, `ExecTrap`, the handler table `ExecuteOp`, `Execute` and the fetch/execute `Step` take `(registers, memory, console)` and return an `Effect`.

The console is a parameter with two parts:

- the input bytes still to be read;
- the results of the coming flushes of standard output, one per flush, in order. Once they are used up, flushing succeeds.

An `Effect` records:

- the new machine state;
- the characters written to standard output;
- an outcome: `Continue`, `Halt`, or `Fault(kind)`.

The Rust code passes `"HALT"` and every error string through one `Result<(), &str>`. Here that channel is the `Outcome` datatype.

Modules, one per source concern:

- `Words`: machine words, bytes, two's-complement readings, big-endian joining, wrapping address increments.
- `Opcodes`: `src/opcode.rs`.
- `Registers`: `src/register.rs`, and `Register::from` (defined in `src/instruction.rs`).
- `Memories`: `src/memory.rs`.
- `Outcomes`: fault kinds, console, effect.
- `Traps`: the TRAP routines of `src/instruction.rs`.
- `Instructions`: field extraction, `sign_extend`, handlers and `execute` of `src/instruction.rs`.
- `Loader`: the buffer parser of `load_obj_file` in `src/utils.rs`.
- `Driver` and `StepProperties`: the loop of `execute_program` in `src/utils.rs`.

## Model

| member | source | states |
|---|---|---|
| Opcodes.ToU16 | src/opcode.rs:118-121 | every opcode's code fits in four bits (at most 15) |
| Opcodes.FromU16 | src/opcode.rs:96-116 | decoding yields an opcode exactly for 0..15 and None from 16 on, and the opcode it yields has that code |
| Opcodes.EncodeDecode | src/opcode.rs:96-121 | decoding an opcode's own code gives back that opcode |
| Opcodes.ToU16Injective | src/opcode.rs:9-92 | distinct opcodes have distinct 4-bit codes |
| Opcodes.ExtractOpcode | src/opcode.rs:125-127 | decoding an instruction never fails, and the opcode found is the one whose code is bits 15..12 |
| Opcodes.ExtractOpcodeTopBits | src/opcode.rs:124-127 | two words that agree on bits 15..12 decode to the same opcode |
| Opcodes.ExtractOpcodeExamples | src/opcode.rs:133-154 | the unit cases: 0 and 15 decode to BR and TRAP, 16 to None; 0x1000 is ADD, and both 0xF000 and 0xFFFF are TRAP |
| Registers.RegisterFrom | src/instruction.rs:376-390 | each 3-bit register number names a general register whose discriminant is that number; the panic arm for numbers from 8 on cannot be reached, because every caller passes a 3-bit mask |
| Registers.RegisterFromNumber | src/instruction.rs:376-390 | converting back from a general register's own discriminant gives that register |
| Registers.New | src/register.rs:52-58 | a new register file reads zero in every register, PC and COND, so COND holds no valid flag yet |
| Registers.Write | src/register.rs:61-78 | after a write, the register reads the value written, and every other register, PC and COND included, reads as before; these read-after-write and frame clauses are also what specify `read` |
| Registers.UpdateFlags | src/register.rs:81-89 | COND becomes Z exactly for 0, N exactly for values negative in two's complement (bit 15 set), and P exactly for the rest; it is one-hot afterwards, and no other register changes |
| Registers.ReflectsIsOneHot | src/register.rs:36-40 | a COND that reflects the sign of a value is one of FL_POS, FL_ZRO and FL_NEG |
| Registers.RegisterFileExamples | src/register.rs:96-120 | the unit cases: write-then-read of R0, R7 and PC, and flags Z, P and N for 0, 1 and 0xFFFF |
| Memories.New | src/memory.rs:36-40 | every one of the 65,536 addresses of a new memory reads zero |
| Memories.Write | src/memory.rs:42-48 | the written cell reads the value written, and every other address reads as before; these read-after-write and frame clauses are also what specify `read` |
| Memories.Clear | src/memory.rs:50-52 | after clear, every address reads zero, whatever was stored before |
| Memories.Index | src/memory.rs:55-61 | indexing reads the same cell as `read` |
| Memories.IndexSet | src/memory.rs:63-67 | assigning through an index has the same effect as `write` |
| Memories.WriteSameValue | src/memory.rs:46-48 | writing back the value a cell already holds leaves the memory unchanged |
| Memories.MemoryExamples | src/memory.rs:73-89 | the unit cases: write then read, index assignment then index, and zero after clear |
| Words.FromBigEndian | src/utils.rs:19 | joining two bytes big-endian puts the first byte in bits 15..8 and the second in bits 7..0 |
| Words.BigEndianSplit | src/utils.rs:19 | splitting a word into its high and low byte and joining them again gives the word back |
| Words.ByteChar | src/instruction.rs:308 | `u8 as char`: the character's code point is the byte's value, so it is NUL exactly when the byte is zero, which is the string terminator test |
| Words.NextStep | src/utils.rs:29 | one more wrapping increment after k increments is k + 1 increments |
| Instructions.SignExtend | src/instruction.rs:369-374 | sign extension only sets bits; with the sign bit `bit_count - 1` clear the word is unchanged, and with it set, every bit from `bit_count` up is one |
| Instructions.SignExtendKeepsField | src/instruction.rs:369-374 | for every width from 1 to 15, the bits below `bit_count` of the result are those of `x`, so with the sign bit set the result is exactly `x` with ones from `bit_count` up |
| Instructions.SignExtendIsTwosComplement | src/instruction.rs:369-374 | for the field widths 5, 6, 9 and 11, the sign-extended word, read as 16-bit two's complement, is the value of the n-bit field read as n-bit two's complement |
| Instructions.ExecAdd | src/instruction.rs:37-55 | DR gets SR1 plus SR2 (bit 5 clear) or plus the sign-extended imm5 (bit 5 set), mod 2^16; COND reflects the result; nothing but DR and COND changes |
| Instructions.ExecAnd | src/instruction.rs:62-80 | DR gets SR1 AND the second operand, chosen as for ADD; COND reflects the result; nothing but DR and COND changes |
| Instructions.ExecNot | src/instruction.rs:85-95 | DR gets the complement of SR; COND reflects it; nothing but DR and COND changes |
| Instructions.BranchTaken | src/instruction.rs:104-111 | with nzp = 000, or with no flag set in COND, the branch is never taken |
| Instructions.BranchTakenMask | src/instruction.rs:101-111 | the n/z/p test against FL_NEG, FL_ZRO and FL_POS is the same as bits 11..9 sharing a set bit with COND; nzp = 000 never branches |
| Instructions.ExecBr | src/instruction.rs:101-117 | a taken branch moves PC by the sign-extended PCoffset9; an untaken one changes nothing at all; only PC is ever written |
| Instructions.ExecJmp | src/instruction.rs:123-128 | PC gets BaseR, which is RET when BaseR is R7; nothing else changes |
| Instructions.ExecJsr | src/instruction.rs:135-149 | R7 gets the (incremented) PC; with bit 11 set, PC moves by PCoffset11; otherwise PC gets BaseR as read after R7 was written, so JSRR through R7 leaves PC where it was; only R7 and PC change |
| Instructions.ExecLd | src/instruction.rs:155-164 | DR gets the word at PC + PCoffset9; COND reflects it; only DR and COND change |
| Instructions.ExecLdi | src/instruction.rs:170-184 | DR gets the word at the address stored at PC + PCoffset9; COND reflects it; only DR and COND change |
| Instructions.ExecLdr | src/instruction.rs:190-204 | DR gets the word at BaseR + offset6; COND reflects it; only DR and COND change |
| Instructions.ExecLea | src/instruction.rs:210-218 | DR gets the address PC + PCoffset9 itself, not the word stored there; COND reflects it; only DR and COND change |
| Instructions.ExecSt | src/instruction.rs:224-236 | the cell at PC + PCoffset9 gets SR, and every other cell is unchanged |
| Instructions.ExecSti | src/instruction.rs:242-255 | the cell whose address is stored at PC + PCoffset9 gets SR, and every other cell is unchanged |
| Instructions.ExecStr | src/instruction.rs:261-274 | the cell at BaseR + offset6 gets SR, and every other cell is unchanged |
| Instructions.ExecuteOp | src/instruction.rs:12-29 | RES and RTI fault with their own kinds and change nothing; the outcome is HALT exactly for TRAP with vector 0x25; every opcode but TRAP, RES and RTI continues |
| Instructions.Execute | src/instruction.rs:6-30 | the "Unknown opcode" error is never produced; RES and RTI fault and change nothing; HALT comes exactly from TRAP x25; every opcode but TRAP, RES and RTI continues |
| Instructions.ExecuteDecodes | src/instruction.rs:11-12 | `execute` runs the handler of the opcode its word decodes to |
| Instructions.ExecuteDispatchOperate | src/instruction.rs:13-15 | a decoded ADD, AND or NOT yields its handler's registers, with memory and console untouched and no output |
| Instructions.ExecuteDispatchControl | src/instruction.rs:16-18 | a decoded BR, JMP or JSR yields its handler's registers, with memory and console untouched and no output |
| Instructions.ExecuteDispatchLoad | src/instruction.rs:19-22 | a decoded LD, LDI, LDR or LEA yields its handler's registers, with memory and console untouched and no output |
| Instructions.ExecuteDispatchStore | src/instruction.rs:23-26 | a decoded ST, STI or STR yields its handler's memory, with registers and console untouched and no output; a decoded TRAP is the trap dispatcher's effect |
| Instructions.ExecuteMemoryFrame | src/instruction.rs:6-30 | no opcode other than ST, STI and STR changes memory |
| Instructions.ExecuteStoreFrame | src/instruction.rs:224-274 | ST, STI and STR change no register, COND included, and do not touch the console |
| Instructions.ExecuteCondFrame | src/instruction.rs:6-30 | ADD, AND, NOT, LD, LDI, LDR and LEA leave COND one-hot and change no register but DR and COND; every other opcode leaves COND as it was |
| Instructions.ExecutePcFrame | src/instruction.rs:6-30 | no opcode other than BR, JMP and JSR changes the PC |
| Instructions.ExecuteConsoleFrame | src/instruction.rs:6-30 | no opcode other than TRAP reads input or writes output |
| Instructions.AddExample | src/instruction_test.rs:8-27 | ADD R2, R0, R1 (0x1401) with R0 = 5 and R1 = 10 leaves 15 in R2 and sets the P flag |
| Traps.PutsChars | src/instruction.rs:314-326 | if the scan returns a string, that string is the non-zero low bytes of the words from R0 on, up to the first word whose low byte is zero; if it returns none, no word within the scan bound has a zero low byte |
| Traps.PutspChars | src/instruction.rs:342-362 | if the scan returns a string, it holds each word's low byte and then its high byte, stopping before a zero low byte or after a zero high byte; if it returns none, no word within the bound has a zero byte |
| Traps.Getc | src/instruction.rs:297-305 | a successful read puts the byte, zero-extended, in R0, changes no other register and consumes one byte; an empty input faults and changes nothing; no flush result is used |
| Traps.Out | src/instruction.rs:307-312 | writes the low byte of R0 as one character and changes no register or memory; it uses up one flush result, and the outcome is a fault exactly when that flush fails |
| Traps.Puts | src/instruction.rs:314-326 | the output is the string at R0 and no register or memory changes; the flush after the string uses up one flush result and faults exactly when it fails; memory with no terminator anywhere is a distinct fault, reached before any flush |
| Traps.In | src/instruction.rs:328-340 | prints the prompt and uses up one flush result; with a successful flush and a byte to read, R0 gets that byte, zero-extended, the byte is echoed with a newline, and no other register changes; otherwise it faults at the flush or the read |
| Traps.Putsp | src/instruction.rs:342-362 | the output is the packed string at R0 and no register or memory changes; the flush uses up one flush result and faults exactly when it fails; memory with no terminator anywhere is a distinct fault, reached before any flush |
| Traps.FlushesExample | src/instruction.rs:307-326 | each routine uses up its own flush result: an OUT whose flush succeeds followed by a PUTS whose flush fails continues after the OUT, and only the PUTS faults |
| Traps.ExecTrap | src/instruction.rs:280-295 | vectors 0x20, 0x21, 0x22, 0x23 and 0x24 run GETC, OUT, PUTS, IN and PUTSP; no TRAP writes memory or any register but R0, or uses more than one input byte or flush result; the outcome is HALT exactly for vector 0x25, which changes nothing; vectors outside 0x20..0x25 fault and change nothing |
| Loader.ImageWords | src/utils.rs:23-34 | an image of b bytes yields b / 2 words; a trailing odd byte is dropped |
| Loader.ImageWordsAt | src/utils.rs:25-30 | word k of the image is bytes 2k and 2k + 1 joined big-endian |
| Loader.ImageBytesAt | src/utils.rs:25-30 | encoding words as an image puts word k's high byte at position 2k and its low byte at 2k + 1, the byte pairing the loader reads back |
| Loader.WordsRoundTrip | src/utils.rs:25-30 | laying words out as big-endian byte pairs and parsing them back gives the same words |
| Loader.BytesRoundTrip | src/utils.rs:25-34 | parsing bytes into words and laying the words out again gives back the bytes without their trailing odd byte |
| Loader.Origin | src/utils.rs:14-21 | the origin is the first two bytes joined big-endian, or 0 for a buffer shorter than two bytes |
| Loader.Program | src/utils.rs:18-34 | an image of at least two bytes has (length - 2) / 2 program words, a trailing odd byte being dropped; a shorter image has none |
| Loader.ProgramWords | src/utils.rs:14-34 | an image of at least two bytes has (length - 2) / 2 program words, word k being bytes 2 + 2k and 3 + 2k joined big-endian; a shorter image has none |
| Loader.StoreWords | src/utils.rs:24-30 | storing no words leaves memory unchanged |
| Loader.StoreWordsSnoc | src/utils.rs:25-30 | storing one more word is storing the others and then writing that word at origin + count |
| Loader.StoreWordsLast | src/utils.rs:25-30 | the last word stored is found at its address, whether or not the addresses wrap round |
| Loader.StoreWordsFrame | src/utils.rs:24-30 | storing the program changes no address that none of its words is stored at |
| Loader.StoreWordsPlaces | src/utils.rs:24-30 | word k is found at origin + k whenever no later word wraps round onto that address |
| Loader.NextIncreasing | src/utils.rs:29 | without wrap-around, the addresses from the origin on strictly increase |
| Loader.NoWrapLastVisit | src/utils.rs:29 | without wrap-around, no later word is stored over an earlier one |
| Loader.StoreWordsNoWrap | src/utils.rs:24-30 | when none of the addresses passes 0xFFFF, every word k is found at origin + k |
| Loader.LoadImage | src/utils.rs:14-36 | the origin is the first two bytes big-endian, or 0 with nothing loaded for a shorter buffer; the result is the words stored in order from the origin; untouched addresses keep their contents; each word is found at its address unless a later word wraps round onto it, and always when there is no wrap-around |
| Driver.FetchNext | src/utils.rs:42-46 | the fetched word depends only on PC and memory, and after the PC increment the next fetch reads the word after the one just fetched, wrapping after 0xFFFF |
| Driver.Advance | src/utils.rs:42-46 | the fetch moves PC on by one, wrapping, and changes no other register |
| Driver.Step | src/utils.rs:41-58 | one iteration is `execute` of the fetched word on the registers with PC already advanced, so every handler contract applies at step level; it never takes the "Invalid instruction" exit, never produces "Unknown opcode", and halts exactly when the fetched word is TRAP x25 |
| Driver.Iterate | src/utils.rs:41-58 | with no fuel the machine is unchanged; a step that halts ends the run as halted, and a step that faults ends it failed with that fault |
| Driver.IterateStable | src/utils.rs:41-58 | a run that stopped by itself is not changed by more fuel |
| Driver.IterateSplit | src/utils.rs:41-58 | running a + b iterations is running a, then b more from where the first a stopped, with the outputs concatenated |
| Driver.IterateNeverFails | src/utils.rs:41-58 | a fault kind that no single step produces never ends a run |
| Driver.Execution | src/utils.rs:40-58 | a run of the fetch/execute loop never fails with "Invalid instruction" or "Unknown opcode" |
| StepProperties.StepHalt | src/utils.rs:42-52 | fetching TRAP x25 halts, with only the PC advanced, memory and console untouched, and nothing printed |
| StepProperties.StepReservedFaults | src/utils.rs:42-54 | fetching RES or RTI faults, with only the PC advanced and nothing printed |
| StepProperties.StepAdvancesPc | src/utils.rs:42-50 | every instruction other than BR, JMP and JSR leaves PC one past the fetched word |
| StepProperties.BranchAfterFetch | src/instruction.rs:101-117 | after the fetch, BR tests COND as it was before the step, and a taken branch lands at the incremented PC plus PCoffset9; nothing but PC changes |
| StepProperties.StepRunsBranch | src/utils.rs:42-50 | a fetched BR runs the BR handler on the advanced registers and leaves memory untouched |
| StepProperties.StepBranch | src/instruction.rs:101-117 | a fetched BR tests COND as it was before the step; when taken it lands at the incremented PC plus PCoffset9, and otherwise at the incremented PC; memory is untouched |
| StepProperties.StepLinks | src/instruction.rs:135-137 | a fetched JSR or JSRR saves the address after it in R7 |
| StepProperties.StepRunsSubroutine | src/utils.rs:42-50 | a fetched JSR or JSRR runs the JSR handler on the advanced registers and leaves memory untouched |
| StepProperties.StepSubroutine | src/instruction.rs:135-149 | JSR goes to the incremented PC plus PCoffset11; JSRR goes to BaseR as it was before the step, except that JSRR through R7 stays at the incremented PC; memory is untouched |
| StepProperties.StepRunsLoad | src/utils.rs:42-50 | a fetched LD runs the LD handler on the advanced registers and leaves memory untouched |
| StepProperties.StepLoad | src/instruction.rs:155-164 | a fetched LD puts the word at the incremented PC plus PCoffset9 in DR and leaves memory untouched |
| StepProperties.StepRunsLoadIndirect | src/utils.rs:42-50 | a fetched LDI runs the LDI handler on the advanced registers and leaves memory untouched |
| StepProperties.StepLoadIndirect | src/instruction.rs:170-184 | a fetched LDI puts in DR the word whose address is stored at the incremented PC plus PCoffset9 |
| StepProperties.StepRunsStoreIndirect | src/utils.rs:42-50 | a fetched STI runs the STI handler on the advanced registers, and changes no register but the PC |
| StepProperties.StepStoreIndirect | src/instruction.rs:242-255 | a fetched STI writes SR, as it was before the step, to the cell whose address is stored at the incremented PC plus PCoffset9 |
| StepProperties.StepRunsLea | src/utils.rs:42-50 | a fetched LEA runs the LEA handler on the advanced registers |
| StepProperties.StepLea | src/instruction.rs:210-218 | a fetched LEA puts the incremented PC plus PCoffset9 in DR |
| StepProperties.StepRunsStore | src/utils.rs:42-50 | a fetched ST runs the ST handler on the advanced registers |
| StepProperties.StepStore | src/instruction.rs:224-236 | a fetched ST writes SR, as it was before the step, to the cell at the incremented PC plus PCoffset9 |
| StepProperties.RunHaltsAtOnce | src/utils.rs:40-53 | a program whose first instruction is TRAP x25 halts on the first iteration, with only the PC advanced and no output |

## Left out

- Real console I/O is not modelled. Standard input is a byte sequence, and an empty one stands for a failed `read_exact`. Each flush takes the next entry of a sequence of flush results. Once the sequence is used up, flushing succeeds. Printed characters are an output sequence.
- UTF-8 encoding of the printed characters is not modelled. `print!` of a `char` from 0x80 to 0xFF emits two bytes; the model records the character itself.
- The debug-build overflow panic of `address += 1` in PUTS, PUTSP and the loader is not modelled. The model uses the release-build wrap-around, and `Loader.NoWrap` states the no-wrap case separately.
- The PUTS/PUTSP loop over memory with no terminating byte anywhere never returns in the source. Here it is the distinct outcome `Fault(Unterminated)`, reached after scanning all 65,536 addresses.
- Opening the file and `read_to_end` in `load_obj_file` are left out. The model starts from the byte buffer.
- `src/main.rs` (the command line) and `src/lib.rs` (module declarations) are not part of this model.
- The unbounded `loop` of `execute_program` is modelled as a run with fuel. `OutOfFuel` stands for a program that is still running.
- `src/utils.rs` imports an `Instruction` type that does not exist in the source files. `Driver.Step` calls `execute` directly, which is what that type's method would have to do.
- JSRR with BaseR = R7 follows the source, not the LC-3 instruction set. The source writes R7 before reading BaseR, so PC gets the incremented PC, not the old R7.
- Instructions.SignExtendIsTwosComplement is proved only for the field widths the handlers use (5, 6, 9 and 11), not for every width from 1 to 15.
- Loader.StoreWords: its own contract states only the empty case. Placement and frame are the lemmas `StoreWordsSnoc`, `StoreWordsLast`, `StoreWordsFrame` and `StoreWordsPlaces`. Putting them on the function makes the proof of `LoadImage`'s loop exceed the solver's resource limit.
- Loader.LoadImage states placement through `LastVisit` and `NoWrap` instead of a bound `origin + count <= 0x10000`, because the source wraps when built for release. `NoWrap` says that none of the first count - 1 addresses is 0xFFFF. Its equivalence with the integer bound is not proved, because the solver cannot relate `(a + 1) as int` to `a as int + 1` for a 16-bit `a`.
- Step-level statements give addresses as `Read(Advance(rf), PC) + offset`, where `Driver.Advance` states that this PC is the old PC plus one (wrapping).
