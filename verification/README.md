# RV-VM in Dafny

A model of the RV32I interpreter `rv32` and proofs about it. The interpreter fetches
a word through an ordered list of memory regions, clears x0, hands the word to the
first registered instruction set that accepts it, and applies the next-pc rule; callers
start and stop the thread that does this.

What is modelled, bottom up:

- `Words.dfy`, `InstFmt.dfy` - 32-bit words as integers with explicit wrap-around,
  bits, bitwise operators, sign extension, and the instruction fields.
- `Memory.dfy` - regions, first-match lookup, `add_mem`, and the two kinds of store.
- `RV32I.dfy` - modules `Hart` (machine state) and `RV32I` (dispatch and the effect of
  each handler as a function). `Csr.dfy` - the six CSR instructions and the registers
  installed by the privileged set.
- `Vm.dfy`, `Registry.dfy` - one iteration, whole runs, the table of instruction sets.
- `Machine.dfy` - the same interpreter as it runs: classes with a register array, byte
  vectors and a CSR map updated in place, each method proved against the functions.
- `Isa.dfy` - an independent reference machine written from chapter 2 and the opcode
  listing of chapter 24 of the RISC-V Unprivileged ISA, version 20191213, over one flat
  memory, with instruction addresses multiples of two. `Encoding.dfy` - its assembler.
- `Decode.dfy`, `FlatMemory.dfy`, `Layout.dfy`, `Simulation.dfy`, `Runs.dfy` - the
  interpreter against that reference: decoding, memory, single steps, whole runs.
- `Access.dfy`, `Stored.dfy` - loads, stores and fetches related to each other, one by one
  and over runs. `CsrRuns.dfy` - the CSR bits over runs.
- `Programs.dfy`, `Idioms.dfy`, `Startup.dfy`, `Boot.dfy`, `Firmware.dfy` - programs in
  memory; two-instruction idioms; the start-up code of the test firmware, from its loops
  to the loaded image. The linker script gives `.data` no load address of its own, so in
  its images the copy goes from the data to itself; the proof covers this placement and
  images with the initial data elsewhere.
- `Logic.dfy` - the bitwise instructions bit by bit, and programs that rest on them.
- `Events.dfy`, `Lifecycle.dfy` - the event word, and start and stop as interleaved steps
  of callers and run threads.
- `Live.dfy` - the machine updated in place against the reference and the firmware.

## Where the code departs from the manual

The model follows the code. `Simulation.StepAgreesIff` gives the exact condition under
which one iteration is one step of the manual's machine, from every state; these are all
the ways it fails:

- `slti` compares a zero-extended source, so it disagrees exactly when rd is not x0, the
  source is negative and smaller than the immediate.
- `ori` takes bits 31:25 of the word as its immediate; it disagrees exactly when rd is not
  x0 and that value and the listed immediate differ in a bit the source does not have.
- `sll` and `srl` use the whole of rs2 as their count, which C++ leaves undefined from 32 on.
- `ecall` and `ebreak` succeed and do nothing.
- The words of `Decode.Extra` run although the listing does not have them.
- A fetch, load or store goes as a whole to the first region of its first byte. It is an
  access to the flat memory a program sees exactly when `FlatMemory.HonestRead` or
  `FlatMemory.HonestWrite` holds; accesses that cross into another region, past the end of
  a file, or write to a store that other regions show too, are the ways it does not. When a
  straddling fetch reads another word than the flat memory holds, the step agrees exactly
  when what that word's handler does (`Simulation.Does`) is the outcome of the other.

An illegal or rejected word is an illegal-instruction trap on both sides.

Other findings:

- `RV32I::isValid` accepts the SYSTEM opcode, so CSR words never reach the CSR set when
  the base set is registered under a name that sorts before it, as I does before ZICSR.
- The base set marks misa only if that register exists already, and the privileged set
  overwrites it, so the mark survives only when the base set is registered second.
- `addr + len` is computed in 32 bits: a region that ends at or beyond 2^32 is admitted
  but contains nothing.
- `csrrsi` and `csrrci` refuse read-only addresses even with a zero immediate, where nothing
  would be written; the other four instructions do not check and write read-only registers.
- `add_mem` does not demand disjoint regions: a region strictly around an earlier one is
  let in, and the earlier, inner one answers.
- `stop` called before the new thread has raised `m_running` returns at once and leaves
  that thread to run; a following `start` then takes back its exit request. That is the
  only way to get two threads into the loop (`Lifecycle.StopIsSafeIff`).

Every step of the interpreter is sequentially consistent in the model. Callers' threads,
the run thread and time-outs are nondeterministic: the theorems hold for every order.

## Model

| member | source | states |
|---|---|---|
| Runs.RunAgreesIff | src/RV32.cc:183-213 | for every program, start state, memory map and n: the loop with the base set and the reference machine agree after each number of steps up to n (registers with x0 read as 0, pc, all memory; or stopping where and for the reason the reference traps) if and only if each of the n iterations is an honest step; no premise but a well-formed state |
| Simulation.ActsAsMeans | src/RV32.cc:192-205 | when a straddling fetch gives a word other than the one the flat memory holds: the handler of any accepted word, extra, divergent and dishonest ones included, agrees with an instruction iff the instruction's reference outcome is the stated effect of that handler (value written, jump target, branch, bytes loaded or stored, or access fault), and never where that is undefined |
| Simulation.ActsAsIff | src/RV32.cc:192-205 | and for a word that is itself honest, iff the reference machine gives both instructions the same outcome |
| Runs.RunAgreesIffTame | src/RV32.cc:183-213 | the same if-and-only-if with a condition on the reference run and the region layout alone, for runs whose accesses stay inside regions with memory objects of their own |
| Runs.RunAgrees | src/RV32.cc:183-213 | so every reference run that meets no listed divergence and stays inside such regions is a run of the interpreter |
| Runs.TameStepIff | src/RV32.cc:183-213 | inside such regions an honest step is one outside the listed divergences |
| Simulation.StepAgreesIff | src/RV32.cc:183-213 | from every state over every memory map, aliased or not, one iteration and one reference step agree if and only if the step is honest: the fetch succeeds or fails alike, and the instruction avoids the listed divergences and makes honest accesses; straddling fetches, loads and stores included |
| Simulation.WordAgreesIff | src/RV32.cc:192-205 | the word fetched against the word the flat memory holds, equal or not: listed, extra and rejected words on either side |
| Simulation.HandlerAgreesIff | src/RV32I.cc:288-942 | each handler, run on the prepared state, agrees with the manual's instruction if and only if the operands are outside its divergence and its memory access is honest |
| Simulation.RejectedAgrees | src/RV32.cc:192-205 | words the base set does not run end the loop exactly where the reference reports an illegal instruction, with nothing changed |
| Simulation.ExtraDisagrees | src/RV32I.cc:22-235 | every word accepted beyond the opcode listing runs (or hits an undefined shift) where the reference traps |
| Simulation.DivergentImmediates | src/RV32I.cc:433-499 | slti of a negative source always writes 0; ori combines with bits 31:25 of the word, that is bits 11:5 of the listed immediate |
| Simulation.DivergentOperations | src/RV32I.cc:653-703 | sll and srl by 32 or more have no defined effect; ecall, ebreak and fence.i change nothing and succeed |
| Logic.LogicOnBits | src/RV32I.cc:467-738 | after xor, and, or, xori, andi and ori only rd is changed, and each bit of it is the difference, conjunction or disjunction of the operands' bits; for ori of bits 31:25 of the word |
| Words.BitwiseMeans | src/RV32I.cc:687-738 | the bitwise operators bit by bit, on all words: and, or, exclusive or, and-not |
| Words.DifferTwice | src/RV32I.cc:687-694 | exclusive or with one operand again gives the other |
| Logic.AndiIsRemainder | src/RV32I.cc:501-515 | andi with 2^n-1 leaves the remainder by 2^n |
| Logic.SwapOnInterpreter | src/RV32I.cc:687-694 | three xors in memory exchange two registers in three iterations of the loop and change no other register |
| Simulation.ShiftRightSignedIsFloor | src/RV32I.cc:537-551 | logical shift then sign extension from bit 31-s is flooring division of the signed value by 2^s, for all s below 32 |
| Simulation.ShiftPairSignExtends | src/RV32I.cc:517-551 | left shift by n then arithmetic right shift by n is sign extension of the low 32-n bits |
| Simulation.LoadIntoAgreesIff | src/RV32I.cc:288-402 | lb, lh, lw, lbu, lhu at any address are the reference's flat little-endian loads if and only if the read is honest (for x0, if success agrees) |
| Simulation.StoreFromAgreesIff | src/RV32I.cc:570-633 | sb, sh, sw at any address are the reference's flat little-endian stores if and only if the write is honest |
| Decode.ExactDecode | src/RV32I.cc:22-235 | every word of the RV32I listing reaches its own handler with its own operands, and the other accepted words are exactly fence.i, jalr with any funct3, six register operations with any funct7, slli with bits 31:26 not all zero and 25 clear, and the two SYSTEM words with any rd or rs1 |
| Decode.ExtraIsTakenFor | src/RV32I.cc:22-235 | each word accepted beyond the listing runs the handler, with the operands, of the listed word that has zeros where the dispatch does not look; fence.i runs its own |
| Decode.ClaimedOpcodes | src/RV32I.cc:16-20 | isValid takes exactly eighteen opcodes, whatever the rest of the word |
| Decode.ImmIAgrees | src/RV32I.cc:416-421 | the extended 12-bit I field is the manual's signed I immediate |
| Decode.ImmSAgrees | include/ZoraGA/defs/RV32InstFmt.h:116-127 | the S pieces reassemble to the manual's signed S immediate |
| Decode.ImmBAgrees | src/RV32I.cc:750-761 | the four B pieces, reassembled and extended from bit 12, are the manual's signed branch offset |
| Decode.ImmJAgrees | src/RV32I.cc:892-904 | the four J pieces, reassembled and extended from bit 20, are the manual's signed jump offset |
| Encoding.DecodeOfEncode | include/ZoraGA/defs/RV32InstFmt.h:39-170 | decoding an assembled instruction gives it back, for every instruction with operands in range |
| Encoding.EncodeOfDecode | include/ZoraGA/defs/RV32InstFmt.h:39-170 | assembling what a legal word decodes to gives the word back, and its operands are in range; a fence word comes back with its ignored fields zero |
| Encoding.JoinSplit | include/ZoraGA/defs/RV32InstFmt.h:26-39 | the fields of the register layout partition the 32 bits: reassembly gives the same word |
| Encoding.SplitJoin | include/ZoraGA/defs/RV32InstFmt.h:26-39 | and any in-range fields are read back from the word they make |
| Encoding.BFieldsValue | include/ZoraGA/defs/RV32InstFmt.h:129-143 | cutting any even offset in [-4096, 4094] into the B pieces and reassembling returns it |
| Encoding.BFieldsBack | include/ZoraGA/defs/RV32InstFmt.h:129-143 | any B pieces reassemble to an even offset in that range, from which the same pieces are cut |
| Encoding.JFieldsValue | include/ZoraGA/defs/RV32InstFmt.h:155-169 | cutting any even offset in [-2^20, 2^20-2] into the J pieces and reassembling returns it |
| Encoding.JFieldsBack | include/ZoraGA/defs/RV32InstFmt.h:155-169 | any J pieces reassemble to an even offset in that range, from which the same pieces are cut |
| InstFmt.OpcodeParts | include/ZoraGA/defs/RV32InstFmt.h:10-24 | the 7-bit opcode is made of the aa, bbb and cc parts the dispatch looks at |
| Words.Sext | include/ZoraGA/RVdefs.h:269-282 | for values below 2^(bit+1) the result is the two's complement extension from that bit; below 2^bit it is the value itself |
| Memory.FirstMatch | include/ZoraGA/RVdefs.h:149-159 | the first region, in registration order, whose range test accepts the address, or none |
| Memory.MatchIsExtent | include/ZoraGA/RVdefs.h:144-147 | a region contains exactly [addr, addr+len) when that ends below 2^32, and nothing at all otherwise |
| Memory.AdmissionIsNesting | src/RV32.cc:61-78 | add_mem lets a region in after another if and only if it is disjoint from it or strictly around it (both non-empty and ending below 2^32) |
| Memory.AddRegionLaminar | src/RV32.cc:54-82 | a call keeps the list laminar: each later region is disjoint from or strictly around each earlier one |
| Memory.AddRegionsLaminar | src/RV32.cc:54-82 | so does any sequence of calls |
| Memory.FirstMatchIsInnermost | include/ZoraGA/RVdefs.h:149-171 | over any sequence of add_mem calls, the region found first is strictly inside every other region containing the address |
| Memory.NestedRegionsAdmitted | src/RV32.cc:61-78 | plain disjointness does not hold: two overlapping regions that are both admitted |
| Memory.MemWrite | include/ZoraGA/RVdefs.h:161-171 | a write that reports an error changed nothing, and no write changes the region list |
| Memory.WriteThenRead | include/ZoraGA/RVdefs.h:149-171 | a successful write changes exactly the addressed bytes of exactly one store, and reading them back gives the data |
| Memory.UndefinedNeedsHugeRegion | rv32_loader/src/mem_ram.cc:17-31 | copies past the end of the byte vector after the 32-bit sum wrapped need a region longer than 2^32-4 |
| FlatMemory.ReadAgreesIff | include/ZoraGA/RVdefs.h:149-159 | a read agrees with the flat address space (success, and little-endian value) if and only if: inside the first region's store every address resolves on its own to that byte; past the end of RAM some address resolves to nothing; past the end of a file every address resolves to zero; the 32-bit end did not wrap |
| FlatMemory.WriteAgreesIff | include/ZoraGA/RVdefs.h:161-171 | a write agrees with the flat address space if and only if: past the end of RAM some address is not RAM; inside, every address is RAM and every mapped byte, through whatever region or shared store, ends up as a flat write would leave it; refused writes always agree |
| FlatMemory.ContainedReadIsHonest | include/ZoraGA/RVdefs.h:149-159 | a read inside one region that does not cross a file's end is honest |
| FlatMemory.ContainedWriteIsHonest | include/ZoraGA/RVdefs.h:161-171 | so is a write, when no other region shares the store |
| Layout.ReadsHonestIffStraight | include/ZoraGA/RVdefs.h:149-159 | for regions with memory objects of their own, RAM or files, shorter or longer than the region, with room for a word below 2^32: a read is honest whatever RAM holds if and only if no other region takes a byte of it (except one that shows the same fixed file byte); past the end of RAM, some address resolves to nothing; past the end of a file, all are fixed zeros |
| Layout.WritesHonestIffStraight | include/ZoraGA/RVdefs.h:161-171 | over the same maps a write is honest for all data if and only if it goes to no region or a file, or lies inside its store with no byte taken by another region, or runs past the end of RAM into an address that is not RAM |
| FlatMemory.ByteAfterWrite | include/ZoraGA/RVdefs.h:161-171 | byte by byte over any map: every address that resolves to a written cell shows the new byte, every other the old one; what is mapped and what is RAM stays |
| Access.StoreThenLoad | src/RV32I.cc:288-402 | after a successful sb, sh or sw the load of the same width at that address returns the stored low bytes with its own extension; registers, pc and CSRs are unchanged by the store |
| Stored.IterateStores | src/RV32.cc:183-213 | an iteration that runs sb, sh or sw, over any instruction sets: the addressed bytes change, the pc advances by 4, nothing else; or the loop ends with nothing changed |
| Stored.RunKeepsBytes | src/RV32.cc:183-213 | no run of any length changes what a read of some bytes delivers unless one of its iterations stores to one of those cells, through whatever region |
| Stored.StoredThenLoaded | src/RV32I.cc:288-402 | any number of iterations after a store, with no store to those cells in between, a load of that width there puts the stored low bytes, extended as the load does, in its register |
| Stored.StoredCodeRuns | src/RV32.cc:183-213 | any number of iterations after a word was stored and not overwritten, an iteration whose pc is that address runs exactly that word (or stops if it is zero), whatever the instruction sets |
| Stored.NextWordRuns | src/RV32.cc:183-213 | in particular a word that sw puts at pc+4 is the one the next iteration runs |
| Access.WideReadIsBytes | include/ZoraGA/RVdefs.h:149-159 | a wide read succeeds exactly when the reads of its bytes do and is made of their results in order, if and only if it is honest; any address, any map |
| Access.StraddlingReadFails | rv32_loader/src/mem_ram.cc:17-23 | any read past the end of the RAM behind its first region fails, and differs from its byte reads exactly when every byte can be read |
| Access.AdjacentReadIsNotItsBytes | include/ZoraGA/RVdefs.h:149-159 | such a read: across two adjacent regions all of whose bytes can be read |
| Access.ReadAcrossFileEndIsZero | rv32_loader/src/mem_rom.cc:29-40 | any read past the end of a file gives zeros only, and is its byte reads exactly when each of them gives zero |
| Vm.PreciseFailure | src/RV32.cc:186-205 | when an iteration ends the loop, on any error path of any instruction set that the source defines, pc, x1..x31, all memory and all CSRs are as before it; stops standing for undefined behaviour are excepted |
| Vm.FlagDecidesNextPc | src/RV32.cc:199-212 | the loop's two-part test equals the pc_changed flag alone: a taken jump to itself stays, everything else advances by 4 |
| Vm.ApplyDisciplined | src/RV32I.cc:288-942 | no handler adds or removes CSRs, changes the memory layout, moves the pc without the flag, or changes anything when it fails |
| Vm.CsrDisciplined | src/RV32Zicsr.cc:92-238 | the same for the CSR instructions |
| Vm.RunKeepsCsrSet | src/RV32.cc:183-213 | no run of any length adds or removes a CSR or changes the shape of memory or a read-only store |
| Vm.CsrDomain | src/RV32Privileged.cc:60-134 | in every state any run reaches from the installed registers, a CSR instruction succeeds iff its address is listed and it is not a set/clear-immediate form at 0xC00 or above |
| Vm.PcStaysEven | src/RV32I.cc:750-928 | from an even start the pc is even in every reachable state, wrap-around included |
| Vm.ApplyKeepsPcEven | src/RV32I.cc:750-928 | each handler keeps an even pc even |
| Vm.CsrReachedIffBeforeBase | src/RV32.cc:280-294 | a CSR word takes effect iff the CSR set is registered before the base set in name order; otherwise it is undefined |
| Vm.PrivilegedWords | src/RV32Privileged.cc:6-51 | the words the privileged set claims, by bits 31:20: wfi and the mret family; in supervisor mode the sret, wfi and four fence families too |
| Registry.InsertKeepsOrder | src/RV32.cc:39-40 | adding a new name keeps the table in name order and changes nothing else |
| Registry.LessTotal | src/RV32.cc:280-288 | the name order is total and antisymmetric, so the iteration order is determined |
| Registry.LessIsLexicographic | src/RV32.cc:280-288 | one name is before another iff at the first difference it ends or has the smaller character |
| Registry.UpperIffSameName | src/RV32.cc:32-52 | two names have the same key iff they differ in letter case only |
| Registry.NameIsTaken | src/RV32.cc:32-52 | once a name is registered every other case of it is taken |
| Registry.CsrNeverReached | src/RV32.cc:280-294 | with the sets named I and ZICSR no CSR instruction is ever executed |
| Csr.SucceedsIffInstalled | src/RV32Zicsr.cc:92-238 | an instruction reports a missing register iff it is not installed, a refused access iff it is installed and the word is a csrrsi or csrrci with bits 31 and 30 up, and succeeds otherwise; a failure changes nothing |
| Csr.ReadOnlyByWord | include/ZoraGA/defs/RVCSRFmt.h:42-53 | the two read-only bits of the address are bits 31 and 30 of the word, and say that it is 0xC00 or above |
| Csr.FieldsOfCsrWord | src/RV32Zicsr.cc:9-34 | every field of a CSR word, register or immediate source included, is read back, and exactly the six funct3 values are accepted |
| Csr.StepDecidesBits | src/RV32Zicsr.cc:92-238 | each bit of each register afterwards: decided by a write, or by a set/clear whose operand has the bit, and unchanged otherwise |
| Csr.StepReturnsOldValue | src/RV32Zicsr.cc:92-238 | rd receives the old register value, also when rd is the source; other registers, memory and pc are unchanged |
| CsrRuns.IterationDecidesBit | src/RV32.cc:183-213 | one iteration of the loop, whatever it fetches and however it ends, changes bit b of CSR c exactly if it runs a CSR instruction that touches it, to what that instruction makes of it with x0 cleared |
| CsrRuns.IterationReturnsOldValue | src/RV32Zicsr.cc:92-238 | an iteration that runs one leaves the register's old value in rd, also when rd is the source; x1..x31 otherwise, and memory, are unchanged and the pc advances by 4 |
| CsrRuns.LastTouchDecides | src/RV32.cc:183-213 | after any run of the loop, over any instruction sets and with any instructions in between, each bit of each CSR is what the last iteration that touched it made it |
| CsrRuns.UntouchedBitStays | src/RV32.cc:183-213 | and a bit no iteration touched is unchanged |
| Registry.MisaMarkedIff | src/RV32I.cc:243-249 | after any sequence of registrations on a new machine, misa exists iff a privileged set was registered, and its base bit is up iff a base set was registered after the last privileged one |
| Registry.RegistersAfter | src/RV32Privileged.cc:60-134 | after any sequence of registrations on a new machine the CSRs are none, or exactly the listed ones, all zero but misa, which is 0x40000100 when marked and 0x40000000 otherwise |
| Csr.MarkingAddsBase | src/RV32I.cc:243-249 | marking adds bit 8 to misa unless it is up, and touches no other bit or register |
| Csr.ListedCounters | src/RV32Privileged.cc:64-125 | how the listed counters correspond: user and machine, low and high, and the event selectors |
| Csr.ListedReadOnly | src/RV32Privileged.cc:60-134 | of the listed addresses those from 0xC00 on are the user counters and five information registers |
| Programs.InstrGoes | src/RV32.cc:183-213 | an assembled instruction in memory is fetched, decoded and executed as itself |
| Programs.GoesOnInterpreter | src/RV32.cc:183-213 | what the reference machine reaches in n steps the interpreter reaches in n iterations |
| Idioms.LoadConstant | src/RV32I.cc:740-748 | lui; addi leaves any 32-bit constant in rd |
| Idioms.LoadAddress | src/RV32I.cc:553-568 | auipc; addi leaves any address in rd from any pc, with wrap-around and a negative low part |
| Idioms.FarCall | src/RV32I.cc:913-928 | auipc; jalr reaches any target with bit 0 cleared, and links |
| Idioms.SignExtendLow | src/RV32I.cc:517-551 | slli n; srai n as a two-step run sign-extends the low 32-n bits |
| Startup.GuardsAsLogged | test/test_fw1/rvvm_loader.log:61-122 | the two loop guards assemble to the words the log shows |
| Boot.PairsAsLogged | test/test_fw1/rvvm_loader.log:1-110 | the address pairs for the stack pointer and the two bss pointers assemble to the six words the log shows |
| Boot.ShortenedAsLogged | test/test_fw1/rvvm_loader.log:25-49 | the addresses that are zero there are the logged addi words of a0, a1 and a2 |
| Startup.BssLoop | test/test_fw1/src/start.s:25-28 | from the loop head, three steps a word: the range is zero, every other byte unchanged, a0 at the end, pc behind the loop |
| Startup.BssClear | test/test_fw1/src/start.s:23-30 | from the guard, for every 4-aligned length including 0: the same, reaching init_finish |
| Startup.DataLoop | test/test_fw1/src/start.s:13-18 | from the loop head, five steps a word: the range holds the source bytes, every other byte unchanged |
| Startup.DataClear | test/test_fw1/src/start.s:11-20 | from the guard, for every 4-aligned length including 0: the same, reaching bss_clear_begin; source and destination may overlap downwards |
| Boot.StartUp | test/test_fw1/src/start.s:6-31 | the whole start-up sequence, in 14 + 5 per data word + 3 per bss word steps: x2 holds the stack's end, x10 and x11 the end of bss, x12 the end of the data, x5 the last word copied, every other register its old value; each byte of bss is zero, each other byte of the data that of its source, every other byte unchanged |
| Boot.StartUpOnInterpreter | test/test_fw1/src/start.s:6-31 | the same as iterations of the interpreter's loop from any state in which the firmware is linked at the pc |
| Firmware.FlashedIsLinked | test/test_fw1/src/start.s:6-31 | an image with its code in a read-only region, data and bss in a RAM region apart from it, and the initial data in the read-only region or in RAM (where it may be the data itself, or overlap it downwards), meets all the start-up proof asks for |
| Firmware.FirmwareBoots | test/test_fw1/src/start.s:6-31 | so from reset with such an image the interpreter reaches init_finish with data copied, bss cleared and nothing else changed |
| Firmware.ScriptCopiesInPlace | test/test_fw1/link.lds:26-34 | as the linker script places them the initial data are the data, and what start-up leaves is the memory with bss cleared |
| Firmware.ScriptImageExists | test/test_fw1/link.lds:26-34 | an image so placed with non-empty data exists |
| Events.Event.constructor | include/ZoraGA/RVEvent.h:49-53 | the word starts at 0 |
| Events.Event.Set | include/ZoraGA/RVEvent.h:41-47 | a bit is up afterwards iff it was or the mask has it |
| Events.Event.Wait | include/ZoraGA/RVEvent.h:15-39 | success iff some bit of the mask (or with allwait every one) is up; bit k of out is the conjunction of the bits before clearing; a bit stays up unless it is in the mask of a successful clearing wait; a timed-out wait changes nothing |
| Events.SatisfiedIffWaited | include/ZoraGA/RVEvent.h:19-25 | the masked test, in both modes, iff some or every bit of the mask is up |
| Events.EffectOnBit | include/ZoraGA/RVEvent.h:15-47 | a bit is up after a call iff the call set it, or it was up and the call did not clear it |
| Events.ConsumedBitWasSet | include/ZoraGA/RVEvent.h:19-25 | a wait for one bit alone, or for all of a mask, only gets through when the bit is up |
| Events.UpIffSetSinceCleared | include/ZoraGA/RVEvent.h:15-47 | in every interleaving a bit is up iff some set of it follows the last successful clearing wait on it |
| Events.WaitsNeverOutnumberSets | include/ZoraGA/RVEvent.h:15-47 | in every possible interleaving, waits that take a bit plus the bit itself never outnumber its sets |
| Lifecycle.StepIsOrderly | src/RV32.cc:125-216 | every step of every caller and run thread keeps the order of threads, if stop is not called before the new thread has raised m_running |
| Lifecycle.RunnerExclusion | src/RV32.cc:32-216 | in every such interleaving at most one thread is in the loop, m_running says whether one is, and while it is no call changes the instruction sets, log, decompressor, regions, registers or CSRs |
| Lifecycle.StopIsSafeIff | src/RV32.cc:146-163 | from every orderly state: after a stop every continuation keeps exclusion if and only if the new thread had raised m_running when stop was called |
| Lifecycle.HastyStopLeavesTwoRunners | src/RV32.cc:125-163 | from every orderly state, the calls and steps by which a stop that comes earlier ends with two threads in the loop over a changed configuration |
| Lifecycle.HastyFromTheStart | src/RV32.cc:125-163 | for example: start a new machine and stop at once |
| Lifecycle.DisciplineExcludes | src/RV32.cc:165-168 | callers who match every start by a successful wait_for_start before they stop never come too early, so exclusion holds |
| Lifecycle.StartToStopIsOneRun | src/RV32.cc:125-216 | from a start to the stop that ends it, however calls and threads interleave, the machine goes through exactly one run of the loop with the instruction sets it was started with, and no thread is left in it |
| Lifecycle.EndsOnlyByItself | src/RV32.cc:175-216 | without a stop call the thread leaves the loop only when one of its iterations ends the run, and the machine is as that run leaves it |
| Lifecycle.EventUpIff | src/RV32.cc:165-216 | in every run, patient or not, from any state, the START (STOP) event is up iff a thread has set it, on entering (after leaving) the loop, and no wait for it has got through since, or it was up before and none has |
| Lifecycle.WaitGetsThroughIff | src/RV32.cc:165-173 | from a new machine wait_for_start (wait_for_stop) gets through exactly then, and successful waits with a bit still up never outnumber the threads that have set it |
| Lifecycle.AnnouncementIsHeard | src/RV32.cc:165-216 | when a thread has entered the loop (or ended) during a run without a wait for that, the wait gets through |
| Lifecycle.StartsAndStopsAlternate | src/RV32.cc:125-163 | successful starts and stops alternate in every run; with no call in the middle, a start is let in iff every start has been stopped, a stop iff one has not |
| Lifecycle.FlagUpIff | src/RV32.cc:84-123 | a log or decompressor is set iff one was given while the machine was not started |
| Lifecycle.StopMakesProgress | src/RV32.cc:146-163 | while stop waits, the exit request stays up, the thread can move and every step brings it closer to its end, at most four from letting stop return |
| Lifecycle.StoppedForGood | src/RV32.cc:146-163 | after such a stop no thread is in the loop or still to enter it |
| Devices.MemRam.constructor | rv32_loader/src/mem_ram.cc:5-6 | a new memory is empty |
| Devices.MemRam.SetSize | rv32_loader/src/mem_ram.cc:11-15 | resizing keeps the common prefix and fills with zeros |
| Devices.MemRam.Read | rv32_loader/src/mem_ram.cc:17-23 | fails iff the 32-bit end is past the vector; otherwise, the end not having wrapped, byte k of the result is byte addr+k of the vector |
| Devices.MemRam.Write | rv32_loader/src/mem_ram.cc:25-31 | ERANGE iff the 32-bit end is past the vector, and then nothing changes; otherwise, the end not having wrapped, byte addr+k becomes byte k of the data and every other byte and the length stay |
| Devices.MemRom.Read | rv32_loader/src/mem_rom.cc:29-40 | byte k of the result is byte addr+k of the file when the whole read is inside it, and zero otherwise; never an error |
| Devices.MemRom.Write | rv32_loader/src/mem_rom.cc:42-45 | always refused |
| Interpreter.Machine.constructor | src/RV32.cc:18-22 | all registers zero, no CSRs, no regions, not started |
| Interpreter.Machine.AddMem | src/RV32.cc:54-82 | the scan appends the region exactly when no earlier one clashes and the machine is not started |
| Interpreter.Machine.SetStartAddr | src/RV32.cc:100-110 | sets the pc unless started |
| Interpreter.Machine.AddInst | src/RV32.cc:32-52 | succeeds iff the machine is not started and no registered name is the same up to letter case; then keeps name order and registers the set's CSRs, otherwise changes nothing |
| Interpreter.Machine.MemRead | include/ZoraGA/RVdefs.h:149-159 | the scan answers with the first matching region's bytes or error |
| Interpreter.Machine.MemWrite | include/ZoraGA/RVdefs.h:161-171 | the scan changes at most the first matching region's store, nothing else in the machine |
| Interpreter.Machine.Lb | src/RV32I.cc:288-307 | in place: only rd changes, to the extended bytes at the effective address, or nothing on a memory error |
| Interpreter.Machine.Lh | src/RV32I.cc:309-333 | in place: only rd changes, to the extended bytes at the effective address, or nothing on a memory error |
| Interpreter.Machine.Lw | src/RV32I.cc:335-357 | in place: only rd changes, to the extended bytes at the effective address, or nothing on a memory error |
| Interpreter.Machine.Lbu | src/RV32I.cc:359-378 | in place: only rd changes, to the extended bytes at the effective address, or nothing on a memory error |
| Interpreter.Machine.Lhu | src/RV32I.cc:380-402 | in place: only rd changes, to the extended bytes at the effective address, or nothing on a memory error |
| Interpreter.Machine.Fence | src/RV32I.cc:404-408 | succeeds and changes nothing |
| Interpreter.Machine.Fencei | src/RV32I.cc:410-414 | succeeds and changes nothing |
| Interpreter.Machine.Addi | src/RV32I.cc:416-431 | in place: only rd changes, to the value RV32I.Value gives from the old operands (tied to the manual by HandlerAgreesIff) |
| Interpreter.Machine.Slti | src/RV32I.cc:433-448 | in place: only rd changes, by the comparison the code makes (source zero-extended) |
| Interpreter.Machine.Sltiu | src/RV32I.cc:450-465 | in place: only rd changes, to the value RV32I.Value gives from the old operands (tied to the manual by HandlerAgreesIff) |
| Interpreter.Machine.Xori | src/RV32I.cc:467-482 | in place: only rd changes, to the value RV32I.Value gives from the old operands (tied to the manual by HandlerAgreesIff) |
| Interpreter.Machine.Ori | src/RV32I.cc:484-499 | in place: only rd changes, by the 7-bit field the code uses |
| Interpreter.Machine.Andi | src/RV32I.cc:501-515 | in place: only rd changes, to the value RV32I.Value gives from the old operands (tied to the manual by HandlerAgreesIff) |
| Interpreter.Machine.Slli | src/RV32I.cc:517-525 | in place: only rd changes; a 6-bit amount of 32 or more is refused and nothing changes |
| Interpreter.Machine.Srli | src/RV32I.cc:527-535 | in place: only rd changes; a 6-bit amount of 32 or more is refused and nothing changes |
| Interpreter.Machine.Srai | src/RV32I.cc:537-551 | in place: only rd changes; a 6-bit amount of 32 or more is refused and nothing changes |
| Interpreter.Machine.Auipc | src/RV32I.cc:553-568 | in place: only rd changes, to the value RV32I.Value gives from the old operands (tied to the manual by HandlerAgreesIff) |
| Interpreter.Machine.Sb | src/RV32I.cc:570-587 | in place: only the addressed bytes of the first matching region change, or nothing on an error |
| Interpreter.Machine.Sh | src/RV32I.cc:589-610 | in place: only the addressed bytes of the first matching region change, or nothing on an error |
| Interpreter.Machine.Sw | src/RV32I.cc:612-633 | in place: only the addressed bytes of the first matching region change, or nothing on an error |
| Interpreter.Machine.Add | src/RV32I.cc:635-642 | in place: only rd changes, to the value RV32I.Value gives from the old operands (tied to the manual by HandlerAgreesIff) |
| Interpreter.Machine.Sub | src/RV32I.cc:644-651 | in place: only rd changes, to the value RV32I.Value gives from the old operands (tied to the manual by HandlerAgreesIff) |
| Interpreter.Machine.Sll | src/RV32I.cc:653-660 | in place: only rd changes; an amount of 32 or more is reported as undefined |
| Interpreter.Machine.Slt | src/RV32I.cc:662-676 | in place: only rd changes, to the value RV32I.Value gives from the old operands (tied to the manual by HandlerAgreesIff) |
| Interpreter.Machine.Sltu | src/RV32I.cc:678-685 | in place: only rd changes, to the value RV32I.Value gives from the old operands (tied to the manual by HandlerAgreesIff) |
| Interpreter.Machine.Xxor | src/RV32I.cc:687-694 | in place: only rd changes, to the value RV32I.Value gives from the old operands (tied to the manual by HandlerAgreesIff) |
| Interpreter.Machine.Srl | src/RV32I.cc:696-703 | in place: only rd changes; an amount of 32 or more is reported as undefined |
| Interpreter.Machine.Sra | src/RV32I.cc:705-720 | in place: only rd changes, to the value RV32I.Value gives from the old operands (tied to the manual by HandlerAgreesIff) |
| Interpreter.Machine.Orr | src/RV32I.cc:722-729 | in place: only rd changes, to the value RV32I.Value gives from the old operands (tied to the manual by HandlerAgreesIff) |
| Interpreter.Machine.Andd | src/RV32I.cc:731-738 | in place: only rd changes, to the value RV32I.Value gives from the old operands (tied to the manual by HandlerAgreesIff) |
| Interpreter.Machine.Lui | src/RV32I.cc:740-748 | in place: only rd changes, to the value RV32I.Value gives from the old operands (tied to the manual by HandlerAgreesIff) |
| Interpreter.Machine.Beq | src/RV32I.cc:750-771 | in place: pc and flag change only when the condition holds |
| Interpreter.Machine.Bne | src/RV32I.cc:773-794 | in place: pc and flag change only when the condition holds |
| Interpreter.Machine.Blt | src/RV32I.cc:796-818 | in place: pc and flag change only when the condition holds |
| Interpreter.Machine.Bge | src/RV32I.cc:820-842 | in place: pc and flag change only when the condition holds |
| Interpreter.Machine.Bltu | src/RV32I.cc:844-866 | in place: pc and flag change only when the condition holds |
| Interpreter.Machine.Bgeu | src/RV32I.cc:868-890 | in place: pc and flag change only when the condition holds |
| Interpreter.Machine.Jal | src/RV32I.cc:892-911 | in place: rd gets the return address, pc the target, the flag goes up |
| Interpreter.Machine.Jalr | src/RV32I.cc:913-928 | in place: the target is taken from the old rs1 also when rd is rs1, bit 0 cleared, then rd gets the return address |
| Interpreter.Machine.Ecall | src/RV32I.cc:930-935 | succeeds and changes nothing |
| Interpreter.Machine.Ebreak | src/RV32I.cc:937-942 | succeeds and changes nothing |
| Interpreter.Machine.ExecBase | src/RV32I.cc:22-235 | runs the selected handler on the live machine; undefined words change nothing |
| Interpreter.Machine.Csrrw | src/RV32Zicsr.cc:92-113 | in place: the CSR map and rd end up as Csr.Exec says, with errors leaving everything alone |
| Interpreter.Machine.Csrrs | src/RV32Zicsr.cc:115-136 | in place: the CSR map and rd end up as Csr.Exec says, with errors leaving everything alone |
| Interpreter.Machine.Csrrc | src/RV32Zicsr.cc:138-159 | in place: the CSR map and rd end up as Csr.Exec says, with errors leaving everything alone |
| Interpreter.Machine.Csrrwi | src/RV32Zicsr.cc:161-182 | in place: the CSR map and rd end up as Csr.Exec says, with errors leaving everything alone |
| Interpreter.Machine.Csrrsi | src/RV32Zicsr.cc:184-210 | in place: the CSR map and rd end up as Csr.Exec says, with errors leaving everything alone |
| Interpreter.Machine.Csrrci | src/RV32Zicsr.cc:212-238 | in place: the CSR map and rd end up as Csr.Exec says, with errors leaving everything alone |
| Interpreter.Machine.ExecCsr | src/RV32Zicsr.cc:35-64 | selects one of the six by funct3 on the live machine |
| Interpreter.Machine.RegistPrivileged | src/RV32Privileged.cc:60-134 | the loops and assignments install exactly the listed addresses with their reset values and keep every other register |
| Interpreter.Machine.InstExec | src/RV32.cc:280-294 | the first accepting set in name order runs the word; none means failure with nothing changed |
| Interpreter.Machine.InstFetch | src/RV32.cc:218-278 | returns the word a four-byte read at that address returns, failing exactly when it fails |
| Interpreter.Machine.Run | src/RV32.cc:175-216 | the live machine ends in the state and for the reason of the functional run, for every exit request time |
| Live.New | src/RV32.cc:18-22 | a new live machine has the registers, sets and regions of the lifecycle's initial state |
| Live.Configure | src/RV32.cc:32-110 | on the live machine each configuration call does what the lifecycle's step of that name says, and nothing when started |
| Live.RunBase | src/RV32.cc:175-216 | with only the base set registered, a run of honest steps leaves the live machine as the reference machine, or stops where and as it traps |
| Live.RunFirmware | test/test_fw1/src/start.s:6-31 | from reset with the firmware's image the live machine reaches init_finish in place, data copied and bss cleared |

## Left out

- Logging and the register dump: output only. The log appears only as a flag of the configuration.
- Command-line parsing and size suffixes of the loader: plumbing.
- File opening and seeking in the read-only memory: the file is an immutable byte sequence; the mutex around it is left out.
- The compressed path of `inst_fetch` and the decompressor: none exists, and the path reads the same halfword twice. A decompressor appears only as a flag of the configuration.
- `RV32Privileged::exec` has an empty body and returns nothing; reaching it is the outcome `Undefined`.
- S-mode, hypervisor and floating-point registers, and the RV64, M and C headers: not implemented there.
- Null pointers for instruction sets, memories and logs; a region refers to its memory object by a handle that exists.
- Undefined behaviour of C++: shifts by 32 or more, and copies past the end of a byte vector after the 32-bit sum wrapped, end in the error code `Undefined`. No theorem says what they leave; the agreement theorems count them as disagreement.
- The CSR map is keyed by the 12-bit address; the ordering of its key type is not modelled.
- Interpreter.Machine.Run: the moment the exit request is seen is the parameter n, an iteration count, instead of a flag another thread writes; Lifecycle has the flag.
- Boot.PairsAsLogged: the linker of the image in the kept log shortened three of the address pairs to one instruction (`Boot.ShortenedAsLogged`), which moves what follows; Boot takes every `la` as a full pair.
- Events.Event.Wait: models the part of the call after its last wake-up; blocking, notification and real time are nondeterminism of the histories.
- Lifecycle.StopMakesProgress: counts steps of the run thread; the sleeps of the polling loop and fair scheduling are not modelled.
- The C++ memory model for the plain bool flags shared between threads.
- Destruction of the machine, which calls stop, and of its parts.
