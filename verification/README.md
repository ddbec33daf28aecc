# A verified model of the ZPU toolchain

This project models a complete small toolchain for the ZPU, a stack processor: its soft
float and integer runtime, assembler, simulator and linker, the C library's allocator, sort
and formatter, a virtio console with its driver, and the packet parser of its debugger stub.
Each part is proved against a mathematical meaning the code does not mention, and the parts
share their machinery: one decoding lemma for im runs serves assembler, linker and simulator,
and one rounding lemma serves every floating-point operation.

Run `dafny verify dfyconfig.toml` in this directory.

## Structure

| files | part |
|---|---|
| `Words.dfy`, `Powers.dfy`, `Bits.dfy`, `CDivision.dfy`, `Ascii.dfy`, `Memory.dfy` | machine words, powers of two, C shifts, masks and division, characters, big-endian memory |
| `Rounding.dfy`, `FloatWord.dfy`, `Guard.dfy` | nearest-even rounding on exact reals, the packed formats, guard and sticky bits |
| `SoftFloat.dfy`, `FloatMul.dfy`, `FloatDiv.dfy`, `FloatConvert.dfy`, `FloatOrder.dfy`, `FloatSpecial.dfy` | the operations of `runtime/softfloat.c`, both precisions |
| `IntRuntime.dfy`, `IntShifts.dfy` | `runtime/builtins.c` |
| `Zpu.dfy`, `Immediate.dfy`, `Assembler.dfy` | the simulator, the im encoding, the assembler |
| `SourceLanguage.dfy`, `Encoding.dfy`, `Simulation.dfy`, `Rows.dfy` | what each mnemonic means, that the opcodes mean it, the assembler theorem, and what becomes of each row and label |
| `Linker.dfy`, `Relocation.dfy`, `Trampoline.dfy`, `Link.dfy` | the linker |
| `HeapBlocks.dfy`, `HeapPayload.dfy`, `Heap.dfy`, `HeapSession.dfy` | `malloc` and its companions, and whole runs against them |
| `Sort.dfy` | `qsort` |
| `Digits.dfy`, `Printf.dfy`, `PrintfLoop.dfy`, `Formats.dfy`, `Snprintf.dfy` | `atoi`, the format language, `sprintf` and `snprintf` |
| `Ring.dfy`, `Chain.dfy`, `VirtQueue.dfy`, `Drain.dfy`, `VirtioConsole.dfy` | the device side of the virtqueue protocol |
| `ConsoleProtocol.dfy`, `ConsoleDriver.dfy` | the driver side and the two together |
| `PacketStream.dfy` | the packet parser |

## How to read the results

**Floating point.** Words are natural numbers and values are exact reals. `NearestEven` says that
no representable point of any exponent is nearer and that ties go to the even significand;
`RoundsTo` adds the code's rule for overflow (infinity, section 7.4 of IEEE 754-2019) and its own
deviation: subnormal operands read as zero and results below the smallest normal, after rounding,
become signed zero. `IsSum`, `IsProduct` and `IsQuotient` are stated for all pairs of words. For
finite operands they demand correct rounding (roundTiesToEven, section 4.3.1); for the others they
say literally what the code returns, and `FloatSpecial` says it on what the words stand for. NaN
is not propagated by the code everywhere: an infinity times a NaN gives an infinity
(`runtime/softfloat.c` lines 88 to 91), and so does a subnormal divided by zero. The loops and the
in-place significands are methods; the order and conversion theorems are lemmas about the
specifications the methods are proved to meet.

**Toolchain.** A machine state is a value and `Step` a function on it; the class `Zpu` holds the
simulator's fields and is proved to compute `Step`. `SourceLanguage` gives every mnemonic and
operand a meaning that mentions no opcode, after `docs/zpu_isa.txt`; `EncodingMeans` says that the
emitted byte has that meaning. The assembler theorem is a forward simulation: a source-level
machine in which im is one push of a number or a label's address, and every other instruction acts
by its meaning, is matched, for runs of any length, by the assembled bytes; `LabelsNameRows` says
which instruction a label of the source names, and `AssemblesExactly` which sources have such a
program. The linker theorem starts from parsed objects and ends in the machine:
`LinkedImageEnters` says where stepping a linked image from reset arrives. The trampoline's
fixed-point iteration fails for four 32-bit entry addresses, those that plus 12 lie from
0xffffe000 to 0xffffe003 (`Converges`).

Linking again behind the trampoline moves every section by the trampoline's length exactly when
every alignment divides that length (`ShiftsExactly`). The trampoline jumps to the entry's first
address plus its own length, so the linked program is entered where the symbol table says exactly
when the alignments up to the entry's section divide the length (`TrampolineHitsEntry`, for
alignments of which one always divides the other, as powers of two do). `TrampolineMisses` is a
family of links for which it is not: `.text` aligned to 8 behind a trampoline of 12 bytes.

**Allocator.** The heap is an array of 4096 words that holds headers and payloads alike, and a
pointer is a byte offset into it. `Tiles` and `Blocks` read the block list out of the words. Every
operation states the new list, that no two neighbouring blocks are free, and that every block
still in use keeps header and payload word for word. `HeapSession.After` is a caller's own
book-keeping, computed from its requests and the pointers it got; `HeapSession.Session` says that
the heap agrees with it byte for byte. Rounding a request up wraps above 2^32 - 4; a block then
holds less than was asked for, and exactly then (`HandedOutHolds`), so `calloc` and `realloc`
assume it does not happen; `malloc` is modelled for every request.

**Console.** `Log` is the unbounded history of a queue, everything ever published and everything
ever completed, and `Tracks` says that guest memory and the device's 32-bit counter hold its live
part. That wrapped counters keep naming the right slot holds exactly for ring sizes that divide
2^32 (`SlotsSurviveWrap`). Driver and device share one byte array. Input arrives at moments: one
behind every load and store of the driver and one at each round of its polls; what comes when is a
parameter. `Driver.Session` is the end-to-end statement. The driver's base address 0x10000
(`soc/zpu_virtio_console.c` line 3) is not the address `soc/memmap.py` line 10 gives the first
virtio slot; driver and device are therefore joined at the register offset, which assumes that the
driver reaches its device.

**Formatter.** The format is read from memory. `Pieces` is the meaning of a format string by
itself and `Scan` is what the loop makes of the string, its NUL and whatever lies behind;
`StopsAtNul` says when the two agree, and `VFormat` is proved for every scan that ends.
`FormatReads` and `PrintsField` say what a format means and what each directive prints, character
by character. A width is an int that wraps; one that has wrapped to within the field's length of
the smallest int makes the padding wrap too (`FieldLength`).

`snprintf` does not do what its name promises for every input. Its EMIT (`libc/stdio.c` line 160)
evaluates the character only where it stores it, and a literal's character is `*fmt++` (line 50), so
from the limit on the loop stays at a literal while position and count go on. The loop is modelled
round by round (`Snprintf.After`). It ends if and only if the limit is above zero or there is no
literal (`EndsExactly`), and it returns the untruncated length if and only if every literal is met
before the limit (`CountsExactly`). `LetterHangs` and `FourthGoesFirst` are failing inputs.

**Disagreements between code and documentation.** The comment in `linker/zpld.py` (lines 162 to
170) says that the trampoline never changes the padding sections need; that holds for alignments
that divide 4, not for all (`EightAtTwelve`). `docs/zpu_soc.txt` (lines 357 to 363) reports that
single-precision multiplication hangs. The C function has no loop, and its model returns the
correctly rounded product for every pair of finite operands; the report concerns something outside
this file.

**Parameters.** Contents of memory, incoming input and its timing, the caller's requests, the
comparator, the variadic arguments and the number of rounds or steps granted are parameters of the
methods and lemmas. Results that the source signals by an exception are options that are empty,
with the exact condition stated.

## Model

| member | source | states |
|---|---|---|
| SoftFloat.Add | runtime/softfloat.c:11-80 | For all words of either precision: the exact real sum of finite operands (subnormals read as zero) rounded to nearest even, infinite on overflow, signed zero below the smallest normal, +0 on exact cancellation; the code's results on NaN and infinity. `__adddf3` is the same method at the double format. |
| SoftFloat.Subtract | runtime/softfloat.c:82 | Subtraction is addition of the negated word, hence the exact difference correctly rounded. |
| SoftFloat.AddMagnitudes | runtime/softfloat.c:52-57 | Like signs: the significand sum, with the carry-out shift and its jam, delivers the correctly rounded real sum. |
| SoftFloat.SubMagnitudes | runtime/softfloat.c:58-66 | Unlike signs: +0 exactly when the operands cancel, otherwise the left-normalising loop ends and the correctly rounded real difference is delivered. |
| SoftFloat.AlignOperands | runtime/softfloat.c:38-49 | The smaller operand shifted right by the exponent difference with the lost bits jammed stands for the exact shifted value; a bit can be lost only when the operands are far apart. |
| SoftFloat.Aligned | runtime/softfloat.c:38-66 | When a bit is lost in alignment, subtraction cancels at most one position, so three guard bits always suffice. |
| SoftFloat.RoundAndPack | runtime/softfloat.c:67-79 | The rounding tail shared by every operation: given a correct round-up decision it delivers the nearest-even word, through carry, overflow and flush. |
| Guard.GuardDecides | runtime/softfloat.c:67-74 | An odd-jammed significand with three guard bits never crosses a rounding boundary: the test on the low three bits is the correct nearest-even decision for the exact value. |
| Guard.JamShift | runtime/softfloat.c:40-49 | Shifting right and or-ing the presence of lost bits into the lowest bit jams the exact quotient. |
| Rounding.DecidedIsNearest | runtime/softfloat.c:67-74 | Comparing the distance to the two neighbours, ties to even, picks a grid point at least as near as every grid point of every exponent. |
| Rounding.NearestExists | runtime/softfloat.c:67-79 | Every positive real has a nearest-even grid point, so the specification can always be met. |
| Rounding.NearestIsUnique | runtime/softfloat.c:67-79 | Every positive real has only one nearest-even grid point, so the specification determines the result. |
| Rounding.ExactIsNearest | runtime/softfloat.c:67-79 | A value the format represents rounds to itself. |
| Rounding.RoundingIsMonotone | runtime/softfloat.c:67-79 | Rounding never reverses the order of two reals. |
| FloatWord.DeliveryIsUnique | runtime/softfloat.c:67-79 | Sign, real value and format determine the delivered word, overflow and flush included. |
| FloatWord.DeliveryExists | runtime/softfloat.c:67-79 | Every positive real is delivered as some word, so no operand makes the rounding theorems empty. |
| FloatWord.EncodedValue | runtime/softfloat.c:75-79 | An encoding in the normal range has exactly the value of its significand and exponent: rounding is the only error. |
| FloatSpecial.EncodeRange | runtime/softfloat.c:75-79 | A rounded magnitude of 2^128 or more (2^1024 in double precision) becomes an infinity of the sign, one below 2^-126 (2^-1022) a zero of the sign, and every other one is delivered exactly. |
| FloatSpecial.Anchors | runtime/softfloat.c:5-8 | The bit patterns of the infinities, zeros and default NaNs, and of 1.0, in both formats. |
| FloatWord.Repack | runtime/softfloat.c:12-26 | Sign, exponent and fraction fields put back together give the word. |
| FloatMul.Multiply | runtime/softfloat.c:84-124 | For all words: the exact real product of finite operands (subnormals read as zero) rounded to nearest even with the same overflow and flush rule, and the code's own results on NaN and infinity. `__muldf3` (lines 365-407) is the double format. |
| FloatMul.MulSingle | runtime/softfloat.c:100-123 | From the 48-bit product on: normalising by one place and rounding on the remainder delivers the nearest-even single. |
| FloatMul.MulDouble | runtime/softfloat.c:382-406 | From the two words of the 106-bit product on: normalisation, the cross-word shift and the remainder test deliver the nearest-even double. |
| FloatMul.Mul64 | runtime/softfloat.c:284-290 | The two result words are the exact 128-bit product of any two 64-bit words; no carry is lost. |
| FloatMul.WideShift | runtime/softfloat.c:386-395 | Shifting a two-word number right across the word boundary is the shift of the number it stands for. |
| FloatMul.RemainderDecides | runtime/softfloat.c:110-112 | Comparing the bits shifted out with one half, ties on the odd bit, is the correct round-up decision. |
| FloatDiv.Divide | runtime/softfloat.c:126-169 | For all words: the exact real quotient of finite operands by a normal divisor, rounded to nearest even with the same overflow and flush rule; otherwise exactly the special results the code returns. `__divdf3` (lines 409-460) is the double format. |
| FloatSpecial.SumRules | runtime/softfloat.c:14-22 | On what the words stand for: a NaN operand gives a NaN, opposite infinities a NaN, like infinities and an infinity with a number that infinity. |
| FloatSpecial.ProductRules | runtime/softfloat.c:84-98 | On what the words stand for: NaN from a NaN on the left or beside a number, NaN from an infinity times zero, otherwise an infinity of the product's sign; an infinity times a NaN on the right is an infinity. |
| FloatSpecial.QuotientRules | runtime/softfloat.c:126-145 | On what the words stand for: every nonzero number divided by zero is an infinity of the quotient's sign, zero by zero and infinity by infinity are NaN, a number by infinity is a signed zero; a subnormal divisor gives an infinity under a normal number and zero under a subnormal one. |
| FloatSpecial.ReadQuiet | runtime/softfloat.c:16-18 | A quieted NaN is a quiet NaN of the same sign and the same payload. |
| FloatDiv.DivSingle | runtime/softfloat.c:146-168 | Dividing by machine division and doubling a short quotient still gives a correct sticky bit and the nearest-even single. |
| FloatDiv.DivDouble | runtime/softfloat.c:429-459 | The restoring divider with its quotient normalised to 56 bits delivers the nearest-even double. |
| FloatDiv.DivideSteps | runtime/softfloat.c:435-443 | After 55 shift-subtract steps q * mb + rem == ma * 2^55 with rem < mb and q of exactly 56 bits; no step overflows. |
| FloatDiv.RoundQuotient | runtime/softfloat.c:444-459 | The remainder joins the guard bits of the quotient as a sticky bit and decides the rounding correctly. |
| FloatDiv.QuotientBounds | runtime/softfloat.c:436-443 | Integer quotient and remainder bracket the exact real quotient, with equality exactly when the remainder is zero. |
| FloatConvert.HighestBit | runtime/softfloat.c:176-178 | The downward loop ends at the highest set bit of any nonzero word. |
| FloatConvert.SingleFromMagnitude | runtime/softfloat.c:174-193 | The single delivered for an integer magnitude is its nearest-even rounding. |
| FloatConvert.DoubleFromMagnitude | runtime/softfloat.c:503-509 | The double delivered for an integer magnitude is the integer itself. |
| FloatConvert.FromSigned | runtime/softfloat.c:171-194 | `__floatsisf` and `__floatsidf` round every 32-bit integer to nearest even, the smallest included. |
| FloatConvert.FromUnsigned | runtime/softfloat.c:196-217 | `__floatunsisf` and `__floatunsidf` round every unsigned 32-bit integer to nearest even. |
| FloatConvert.DoubleIsExact | runtime/softfloat.c:500-520 | Every 32-bit integer converts to a finite double of exactly its value. |
| FloatConvert.Fix | runtime/softfloat.c:219-230 | `__fixsfsi` and `__fixdfsi` discard the fraction of the value and saturate outside the 32-bit range. |
| FloatConvert.ExtendIsExact | runtime/softfloat.c:462-472 | Widening keeps sign, class and exact value of every single. |
| FloatConvert.Truncate | runtime/softfloat.c:474-498 | Narrowing rounds the exact value of a double to the nearest-even single with the same overflow and flush rule. |
| FloatConvert.ConversionPathsAgree | runtime/softfloat.c:171-194 | For every integer, converting to single directly or through double gives the same word. |
| FloatConvert.IntegerRoundTrip | runtime/softfloat.c:522-533 | Every 32-bit integer survives the trip through double and back. |
| FloatConvert.WidenRoundTrip | runtime/softfloat.c:462-498 | Narrowing a widened single returns it if and only if it is neither subnormal nor a signalling NaN. |
| FloatOrder.CmpDecides | runtime/softfloat.c:243-256 | `sf_cmp`/`df_cmp` return unordered exactly on NaN and otherwise decide the order of the represented extended reals, with -0 equal to +0. |
| FloatOrder.WrappersDecide | runtime/softfloat.c:258-273 | Each comparison the compiler makes by testing a wrapper against zero is the corresponding order relation, false on NaN. |
| FloatOrder.EncodeMonotone | runtime/softfloat.c:75-79 | Packing keeps the order of the grid, through overflow to infinity and flushing to zero. |
| FloatOrder.RoundsToMonotone | runtime/softfloat.c:67-79 | Rounding with overflow and flush is monotone on all reals. |
| FloatOrder.AdditionIsMonotone | runtime/softfloat.c:11-80 | In the order the comparison decides, addition is weakly monotone in its first argument on all words whose results are numbers. |
| FloatOrder.AdditionCommutes | runtime/softfloat.c:11-80 | Addition of numbers commutes, so it is monotone in its second argument too. |
| IntRuntime.UDiv32 | runtime/builtins.c:19-29 | Exact 32-bit quotient for every dividend and nonzero divisor. |
| IntRuntime.UMod32 | runtime/builtins.c:31-39 | Exact 32-bit remainder for every dividend and nonzero divisor. |
| IntRuntime.ShiftKeepsAll | runtime/builtins.c:22 | The remainder never exceeds the dividend bits consumed so far, so `r << 1` loses no bit even for divisors above half the range. |
| IntRuntime.DivideStep | runtime/builtins.c:21-27 | One iteration keeps prefix == digits * b + r with r < b, and or-ing the quotient bit in sets exactly that digit. |
| IntRuntime.UDivMod64 | runtime/builtins.c:47-61 | Exact 64-bit quotient and remainder from the loop that shifts dividend, remainder and quotient at once. |
| IntRuntime.Divide64Step | runtime/builtins.c:49-57 | One iteration shifts a dividend bit into the remainder without losing a bit of remainder or quotient and keeps the division identity. |
| IntRuntime.Div64 | runtime/builtins.c:71-76 | Quotient truncated toward zero, wrapped to 64 bits; it wraps only for the smallest number divided by -1. |
| IntRuntime.Mod64 | runtime/builtins.c:78-84 | Remainder of the truncating division for every pair with a nonzero divisor. |
| CDivision.TruncIsDivision | runtime/builtins.c:71-84 | Truncated quotient and remainder satisfy a == q * b + r with |r| < |b| and r zero or of the sign of a. |
| IntRuntime.QuotientFits | runtime/builtins.c:71-76 | The exact quotient fits in 64 bits if and only if the operands are not the smallest number and -1. |
| IntRuntime.Mul32 | runtime/builtins.c:9-17 | The full 64-bit product of two 32-bit words from 16-bit halves, no partial product wrapping. |
| IntRuntime.Mul64 | runtime/builtins.c:41-45 | The product of two 64-bit words modulo 2^64. |
| IntShifts.ShiftLeft | runtime/builtins.c:86-99 | a * 2^b modulo 2^64 for every shift count from 0 to 63. |
| IntShifts.ShiftRight | runtime/builtins.c:101-114 | The floor of a / 2^b for every shift count from 0 to 63. |
| IntShifts.ShiftRightSigned | runtime/builtins.c:116-131 | The floor of the signed a / 2^b for every shift count from 0 to 63. |
| IntShifts.CrossLeft | runtime/builtins.c:95-98 | The two or-ed halves of a left shift that crosses the middle make up the shifted number. |
| IntShifts.CrossRight | runtime/builtins.c:110-112 | The low half of a right shift is the residue of the high half scaled up plus the quotient of the low half. |
| ZpuMachine.Zpu.constructor | sim/zpu.py:27-35 | The program is at the bottom of zeroed memory, stack pointer at the top, not halted. |
| ZpuMachine.Zpu.LoadWord | sim/zpu.py:37-41 | Aligned big-endian read, failing exactly out of bounds. |
| ZpuMachine.Zpu.StoreWord | sim/zpu.py:43-47 | Aligned big-endian write, failing exactly out of bounds and then changing nothing. |
| ZpuMachine.Zpu.FlipBits | sim/zpu.py:9-14 | The loop reverses the 32 bits of any word. |
| ZpuMachine.Zpu.Immediate | sim/zpu.py:68-76 | im starts a sign-extended word or chains seven more bits into the word on top. |
| ZpuMachine.Zpu.StackOp | sim/zpu.py:77-88 | storesp, loadsp and addsp, with the order in which stack pointer and memory are used. |
| ZpuMachine.Zpu.Plain | sim/zpu.py:97-216 | Every other opcode: arithmetic, memory, branches, call, and the emulation vectors. |
| Bits.AndBits | sim/zpu.py:111-113 | Bit by bit, and is the conjunction. |
| Bits.OrBits | sim/zpu.py:114-116 | Bit by bit, or is the disjunction. |
| Bits.XorBits | sim/zpu.py:173-174 | Bit by bit, xor is the difference. |
| Bits.ReverseBits | sim/zpu.py:9-14 | Bit k of the reversed word is bit n - 1 - k. |
| Bits.BitsDetermine | sim/zpu.py:97-216 | Words with the same bits are the same, so each of these says everything about its operation. |
| ZpuMachine.Zpu.StepOnce | sim/zpu.py:62-95 | One step of the object is the step function on its whole state, failing exactly where the simulator raises. |
| ZpuMachine.Zpu.Run | sim/zpu.py:218-225 | Running to a halt is iterating the step function up to the first halted state, within the limit; it gives up exactly with an unhalted state at the limit or at a state whose step fails. |
| Memory.StoreLoad | sim/zpu.py:43-47 | A stored big-endian word reads back and no byte outside it changes. |
| Immediate.ImMinimal | sim/assembler.py:61-75 | The encoder loop ends for every value and yields the seven-bit groups of its signed 32-bit form; the linker's copy at linker/zpld.py lines 141-154 is the same loop. |
| Immediate.MinimalRunDenotes | sim/assembler.py:61-75 | For every value the minimal run denotes the value modulo 2^32 and has at most five bytes. |
| Immediate.MinimalRunIsShortest | sim/assembler.py:61-75 | No nonempty im run that denotes the value is shorter than the minimal one. |
| Immediate.FixedRun | sim/assembler.py:78-81 | The fixed five-byte form denotes the same word for every value. |
| Immediate.ChainStep | sim/zpu.py:70-71 | Executing a further im byte rewrites the word the run has pushed so far to word * 128 + 7 bits. |
| Immediate.RunIm | sim/zpu.py:68-76 | Executing a whole run from a non-im state is exactly one push of the word it denotes. |
| Assembler.Expand | sim/assembler.py:91-100 | The generator with its running im flag yields the recursively specified list of labels and instructions. |
| Simulation.ExpansionIsPadding | sim/assembler.py:91-100 | The instructions are those written, with one nop between every two adjacent ims and nothing else. |
| Rows.InstructionsStand | sim/assembler.py:91-100 | The instruction of row i is preceded by exactly those of the earlier rows and one nop for each im behind an im up to and including it; nothing else but nops is in the program. |
| Rows.LabelsNameRows | sim/assembler.py:91-149 | A label written in row i is the byte offset at which row i's own instruction starts, behind its padding nop, and a jump to it goes on with that instruction. |
| Rows.LabelsAreTheRows | sim/assembler.py:139-149 | The labels known are exactly those written in the rows. |
| Rows.ImsAreShort | sim/assembler.py:152-158 | An im of a number takes the fewest bytes that push it, an im of a label always five. |
| Rows.AssemblesExactly | sim/assembler.py:91-184 | Rows assemble if and only if no label is written twice and every instruction has an operand it can have, its labels among those written. |
| Assembler.Resolve | sim/assembler.py:139-149 | The first pass fails exactly on a repeated label or a missing im operand, and maps every label to the byte offset at which its next instruction starts. |
| Assembler.EncodeLength | sim/assembler.py:129-174 | Both passes agree on the length of every instruction that encodes; an im encodes to an im run and everything else to one non-im byte. |
| Assembler.Emit | sim/assembler.py:180-183 | The second pass fails exactly when some instruction cannot be encoded; otherwise each instruction's bytes stand at its start offset. |
| Assembler.Assemble | sim/assembler.py:177-184 | A result is the bytes of a program with all of the above; failure means that no such program exists. |
| Simulation.AssembledIsWellFormed | sim/assembler.py:177-184 | Everything assemble produces meets the conditions of the simulation: distinct labels, encoded code, no adjacent ims. |
| Simulation.ImSimulates | sim/assembler.py:152-158 | From related states, one source-level im is matched by its bytes: one push of the intended number or label address. |
| Encoding.NamedMeans | sim/assembler.py:3-36 | The opcode table is right: executing the byte of each mnemonic without operand performs the operation of that name, defined from its name alone. |
| SourceLanguage.LogicIsBitwise | docs/zpu_isa.txt:48-61 | What and, or, xor, not and flip leave, each of the 32 bits by itself. |
| SourceLanguage.LoadsAgree | docs/zpu_isa.txt:54-55 | A loaded word is its two halfwords and a halfword its two bytes, the more significant one first. |
| SourceLanguage.StoresReadBack | docs/zpu_isa.txt:66-67 | A stored word, halfword or byte is what the load of its size finds there; a store fails exactly when its bytes are not in memory, and changes no other byte. |
| Encoding.NamesComplete | sim/assembler.py:3-36 | The opcode table holds exactly the names that have a meaning without operand. |
| Encoding.EncodesExactly | sim/assembler.py:152-174 | An instruction is encoded if and only if its operand is one it can have: number or known label, a multiple of four in range, a vector, or none. |
| Encoding.RelativeMeans | sim/assembler.py:159-164 | The offset encoding is right: the emitted loadsp, storesp or addsp reaches exactly the word the operand names, the inverted top bit undone by the machine. |
| Encoding.EmulateMeans | sim/assembler.py:165-169 | emulate v performs the instruction numbered 32 + v where the machine has one, and otherwise pushes the next address and jumps to 32 * v. |
| Encoding.EncodingMeans | sim/assembler.py:152-174 | For every instruction other than im that encodes, executing the emitted byte is the meaning of its mnemonic and operand, which mentions no opcode. |
| Simulation.OpSimulates | sim/assembler.py:159-174 | From related states, any other source instruction, by its own meaning, is matched by one machine step. |
| Simulation.RunSimulates | sim/assembler.py:177-184 | Every run of the source program, of any length, is matched by a run of its bytes ending in a related state. |
| Simulation.PaddingStutters | sim/assembler.py:94-95 | An inserted nop changes nothing but the position. |
| Simulation.AssemblerIsCorrect | sim/assembler.py:177-184 | From reset, running the assembled bytes simulates every source run that neither overwrites code nor jumps to an address at which no instruction starts; what the labels of the source program are, LabelsNameRows says. |
| Linker.Layout | linker/zpld.py:198-215 | Collecting sections by kind and appending with alignment padding computes the placement function, for any base. |
| Linker.LayoutOrder | linker/zpld.py:200-205 | The order holds exactly the allocatable sections, each once, by ascending kind. |
| Linker.OrderByName | linker/zpld.py:22-29 | Sections whose names begin with .text come first, then .rodata, .bss last, all others between; sections of one sort keep the order of objects and of sections within an object. |
| Linker.PlaceLaysOut | linker/zpld.py:207-215 | Every placement holds each section's bytes at an address that its alignment field, if not zero, divides; in order, disjoint, with zero gaps; each gap is smaller than the alignment field of the section behind it and empty where the field is zero. |
| Linker.LayoutIsUnique | linker/zpld.py:207-215 | These properties determine every address. |
| Linker.PadIsFirst | linker/zpld.py:212-213 | The padding loop stops at the first aligned position. |
| Linker.PadShifts | linker/zpld.py:212-213 | Moving a position by base leaves its padding as it was if and only if the alignment divides base. |
| Linker.PlaceShifts | linker/zpld.py:198-215 | At a base that every alignment divides the layout is the same image with every address moved by the base. |
| Linker.ShiftsExactly | linker/zpld.py:198-215 | Every address moves by base if and only if the alignment of every section laid out divides base. |
| Linker.MovesByBase | linker/zpld.py:198-215 | Where of any two alignments one divides the other, one section moves by base if and only if its alignment and those of all sections before it divide base. |
| Linker.EightAtTwelve | linker/zpld.py:198-215 | A failing input: one section aligned to 8 is at 0, 8 and 16 for the bases 0, 8 and 12. |
| Relocation.CollectGlobals | linker/zpld.py:217-230 | The symbol loop computes the global table, or fails. |
| Relocation.GlobalsCorrect | linker/zpld.py:217-230 | Failure means exactly that two global definitions share a name; otherwise the table maps exactly the exported names to their addresses. |
| Relocation.Referents | linker/zpld.py:232-243 | A relocation that resolves is about some definition and resolves to its address: the one its own object has for the symbol, whatever globals of the name exist, or else the export of the name. |
| Relocation.Relocate | linker/zpld.py:245-260 | The relocation loop applies every entry in order, failing at the first that is not applicable. |
| Relocation.PatchAllSucceeds | linker/zpld.py:246-257 | Relocation succeeds exactly when every entry has the supported type, a placed target section, an in-bounds window and a resolvable symbol. |
| Relocation.PatchDenotes | linker/zpld.py:258-260 | Executed as an im run, the five patched bytes denote value modulo 2^32, for any integer value. |
| Relocation.OutsideWindows | linker/zpld.py:259-260 | A byte outside every window is unchanged by relocation. |
| Relocation.WindowsHold | linker/zpld.py:259-260 | Entries are applied in order: a window that no later one overlaps ends up holding its own value's bytes. |
| Relocation.LayoutAndResolve | linker/zpld.py:198-262 | Layout, symbol table and relocation composed, with the failures of each. |
| Relocation.LinkedImage | linker/zpld.py:198-262 | Every successful link: sections placed as PlaceLaysOut says, every byte outside windows copied, the global table exact, and every window that no later one overlaps decoding modulo 2^32 to the address of the definition it is about, its own object's if there is one, plus addend. |
| Relocation.LinkFails | linker/zpld.py:198-262 | A link fails if and only if two globals in placed sections share a name or some relocation has a type other than 1, a section that is not placed, a window that ends behind the image, a symbol out of range, or one that neither its own object's placed sections nor any export defines. |
| Relocation.GlobalsShift | linker/zpld.py:217-230 | Moving every section by the same distance moves every global by it and creates or removes none. |
| Relocation.GlobalsSameNames | linker/zpld.py:217-230 | Wherever the sections are placed, the same names are defined and the same definitions clash. |
| Trampoline.SolveReturn | linker/zpld.py:179-188 | The inner loop never fails: it ends with a body that pushes, as return offset, the position of its own last byte. |
| Trampoline.EntryTrampoline | linker/zpld.py:161-195 | The outer loop fails if and only if the entry plus 12 is one of the four words from 0xffffe000 to 0xffffe003; otherwise it returns a trampoline whose length is consistent with itself. |
| Trampoline.Converges | linker/zpld.py:176-195 | Those four entries are exactly the ones for which no total length is consistent with itself, and exactly the ones for which 8 and 12 lead to each other. |
| Trampoline.Diverges | linker/zpld.py:195 | One of the four, with the im lengths that make it fail. |
| Trampoline.TrampolineRuns | linker/zpld.py:162-170 | Stepping from pc 0 with three words of free stack reaches the entry with ret, ret, 0 on the stack, a breakpoint at ret, and only those words written. |
| Trampoline.PushCall | sim/zpu.py:137-141 | im v; call jumps to v with the next address pushed. |
| Link.LinkProgram | linker/zpld.py:265-277 | link without an entry is layout at 0; with one it resolves the entry at 0, builds the trampoline, links again behind it and concatenates. |
| Link.LinkShifts | linker/zpld.py:271-277 | Relinking at a base that every alignment divides moves every global by the base and keeps the image size. |
| Link.LinkSucceeds | linker/zpld.py:271-277 | Inputs that link at 0 link at another base if and only if every relocation window ends inside the image there. |
| Link.WindowsFitThere | linker/zpld.py:245-257 | That is so at every base when each window lies in its own section, and at a base that every alignment divides. |
| Link.EntryLinks | linker/zpld.py:265-277 | Inputs that link at 0 and define the entry link behind a trampoline if and only if the entry is not one of the four that have none and every relocation window ends inside the image behind it. |
| Link.LinkedImageEnters | linker/zpld.py:265-277 | Whatever the alignments, stepping the linked image from reset reaches exactly the entry's address in the first layout plus the trampoline's length, stack ret, ret, 0, image intact. |
| Link.EntryImage | linker/zpld.py:265-277 | The file is the trampoline and behind it, counted from the start of the file, every section's bytes at its address outside the windows, and every window that no later one overlaps decoding to its definition's final address plus addend. |
| Link.GlobalMoves | linker/zpld.py:217-230 | A global moves by base if the alignments of the sections up to its own divide base, only if its own section's does, and, where of any two alignments one divides the other, exactly if they all do. |
| Link.TrampolineHitsEntry | linker/zpld.py:271-277 | The address reached is the entry's linked address if the alignments of the sections up to the entry's divide the trampoline's length, and, where of any two alignments one divides the other, only then. |
| Link.TrampolineMisses | linker/zpld.py:265-277 | A failing family: behind a 12-byte trampoline a .text aligned to 8 is placed at 16, so main is linked at value + 16 while the trampoline jumps to value + 12. |
| Heap.Allocator.Init | libc/stdlib.c:17-23 | The uninitialised heap becomes the one full-size free block it stands for. |
| Heap.Allocator.Malloc | libc/stdlib.c:25-48 | Hands out the first free block that is large enough, exactly the rounded request when that leaves three words or more, which become a free block of their own, and the whole block otherwise, at most two words over; fails only when none is large enough; keeps tiling, separation of free blocks, and every live block's words. |
| Heap.HandsOutServes | libc/stdlib.c:25-48 | The new list in numbers: which block was given, how long it is now, what was split off, and that every other block stayed. |
| Heap.TwoRequests | libc/stdlib.c:25-48 | On the empty heap malloc(400) returns 8 and malloc(4) then returns 416. |
| Heap.Allocator.Search | libc/stdlib.c:32-47 | The header walk finds exactly the first fit. |
| Heap.FirstFit | libc/stdlib.c:32-47 | The chosen index is the first free block of the size; none exists when there is no index. |
| Heap.AllocationKeeps | libc/stdlib.c:34-43 | Taking from a free block adds exactly one used block, keeps every other one, and leaves no two neighbours free. |
| Heap.TakenTiles | libc/stdlib.c:34-43 | The header writes of a split tile the old block's words with exactly the intended one or two blocks and touch nothing else. |
| Heap.RoundUpCovers | libc/stdlib.c:30 | Rounding goes to the next multiple of four, and the rounded size covers the request if and only if it is at most 2^32 - 4. |
| Heap.HandedOutHolds | libc/stdlib.c:30-43 | A block handed out for a request holds it if and only if the request is at most 2^32 - 4. |
| Heap.WrapsToNothing | libc/stdlib.c:30-43 | A failing input: on the empty heap a request of 2^32 - 3 bytes is answered with a block of no bytes. |
| Heap.Allocator.Free | libc/stdlib.c:62-68 | Removes exactly the block pointed to, coalesces, and changes no word of any block still in use; null is a no-op. |
| Heap.Allocator.Coalesce | libc/stdlib.c:50-60 | The pass over the headers leaves the list it should, and every used block's header and payload unchanged. |
| HeapBlocks.CoalescedIsMerged | libc/stdlib.c:50-60 | After coalescing no two neighbours are free and exactly the same blocks are used. |
| Heap.ReleaseKeeps | libc/stdlib.c:62-68 | Releasing removes exactly one used block and keeps free blocks apart. |
| Heap.Allocator.Calloc | libc/stdlib.c:70-76 | malloc of the product taken in 32 bits, with every requested byte zero. |
| Heap.ProductHolds | libc/stdlib.c:70-76 | A block handed out for the 32-bit product holds nmemb objects of the size if and only if the true product is at most 2^32 - 4. |
| Heap.ProductWraps | libc/stdlib.c:70-76 | A failing input: 2^30 + 1 objects of four bytes are given one word. |
| HeapPayload.Memset | libc/stdlib.c:74 | Exactly the requested bytes are set, byte by byte, inside the words of the block. |
| Heap.Allocator.Realloc | libc/stdlib.c:78-94 | In place when the block is large enough; otherwise the old payload opens the new block and the old one is freed; on failure nothing changes. Every other live block keeps its words. |
| Heap.Allocator.Move | libc/stdlib.c:89-92 | Copy then free: the payload arrives, exactly the old block disappears. |
| HeapPayload.PayloadStores | libc/stdlib.c:9-12 | Stores into a payload, headers being in the same memory, keep the block list and every other block. |
| HeapBlocks.BlocksDisjoint | libc/stdlib.c:9-12 | Different blocks of a tiling do not overlap. |
| Heap.Allocator.LiveDisjoint | libc/stdlib.c:25-48 | Payloads of different live pointers share no byte and stay inside the heap. |
| HeapBlocks.AllFreeIsOne | libc/stdlib.c:50-60 | A tiling without used blocks and without adjacent free ones is one block. |
| Heap.Allocator.Restored | libc/stdlib.c:62-68 | When nothing is in use the heap is one full-size free block again. |
| HeapSession.Session | libc/stdlib.c:25-94 | Over every sequence of malloc, calloc, free, realloc and byte stores: what is held is exactly what is in use, every held pointer still has each byte last stored there or zeroed by calloc, through every realloc, and giving everything back restores one block. |
| HeapSession.Moved | libc/stdlib.c:88-93 | After a realloc into a new block the old contents, as far as they fit, are what the new pointer holds, and every other pointer keeps its contents. |
| HeapSession.RememberAgain | libc/stdlib.c:9-12 | Other contents for one block leave what every other pointer holds. |
| Sort.Qsort | libc/stdlib.c:135-154 | For every record count and width, and every comparator that is a total preorder on the records being sorted, the record array becomes its stable sort and no byte outside it changes. |
| Sort.StableSortIsSorted | libc/stdlib.c:135-154 | The result is in order, and records that tie keep their original order. |
| Sort.StableSortIsUnique | libc/stdlib.c:135-154 | There is only one stable sort of a sequence, so the specification determines the array. |
| Sort.RecordsTile | libc/stdlib.c:141-151 | The records are all the bytes of the array, one after another, size of them each. |
| Sort.Insert | libc/stdlib.c:141-153 | One round of the outer loop inserts record i into the sorted prefix and keeps ties in order. |
| Sort.SwapNeighbours | libc/stdlib.c:144-151 | Swapping two neighbours' bytes swaps the two records and leaves every other record and byte. |
| Sort.SwapRecords | libc/stdlib.c:146-150 | The byte loop exchanges two stretches of memory and changes nothing else. |
| Ring.SlotsSurviveWrap | soc/virtio.py:61-71 | The wrapped counter names the right slot for all counts if and only if the ring size divides 2^32. |
| Ring.PowerDivides | docs/zpu_soc.txt:130-132 | Every power of two up to 2^32 qualifies as a ring size. |
| Ring.ThreeSlotsGoWrong | soc/virtio.py:61-71 | With three slots the first wrap already reads a wrong slot. |
| Ring.PendingIsOldest | soc/virtio.py:64-68 | has_pending is true exactly when fewer chains were consumed than published, and next_pending is the oldest of them, across wraparound. |
| Ring.CompleteKeeps | soc/virtio.py:97-102 | Completing the oldest chain and advancing consumes exactly it: memory and counter track the log with one more used entry. |
| Ring.PublishKeeps | soc/zpu_virtio_console.c:80-81 | Writing a ring slot and bumping the index publishes exactly one more chain when there is room. |
| Chain.ChainIsUnique | soc/virtio.py:73-82 | A head in a given table names one list of buffers. |
| Chain.ScatterGather | soc/virtio.py:73-95 | What was written through a chain of disjoint buffers is what reading it yields, as far as it fits. |
| Chain.ScatterFrame | soc/virtio.py:84-95 | Writing through a chain changes nothing apart from its buffers. |
| VirtQueue.Virtqueue.Descriptor | soc/virtio.py:50-56 | The four used fields of a table entry, big-endian. |
| VirtQueue.Virtqueue.HasPending | soc/virtio.py:64-65 | Compares the device's counter with the index in memory. |
| VirtQueue.Virtqueue.NextPending | soc/virtio.py:67-68 | The ring slot of the device's counter. |
| VirtQueue.Virtqueue.ReadChain | soc/virtio.py:73-82 | Following the links collects the chain's buffers in order and ends. |
| VirtQueue.Virtqueue.WriteChain | soc/virtio.py:84-95 | Fills the chain's buffers in order and returns the smaller of data and capacity. |
| VirtQueue.Virtqueue.Complete | soc/virtio.py:97-102 | Entry id, entry length and index written, the index wrapping at 2^32. |
| VirtQueue.CompletedRecords | soc/virtio.py:97-102 | Memory after a completion, by byte offsets: head and count in the entry the index names, the index one higher, every other byte the same. |
| Drain.TxStep | soc/virtio_console.py:37-43 | Sending the oldest chain completes it with its full length and leaves the chains behind it pending with the same contents. |
| Drain.RxStep | soc/virtio_console.py:49-55 | Filling the oldest chain puts the front of the input into it, completes it with that count, and leaves the chains behind it pending. |
| Drain.ReceivedMore | soc/virtio_console.py:49-55 | Chains filled earlier keep what was delivered to them. |
| VirtioConsole.Console.DrainTransmit | soc/virtio_console.py:33-43 | Every published chain is sent exactly once, in order; output grows by the concatenation of their contents; used entry i carries head i and its byte count; the interrupt is raised exactly if a chain completed; only the used ring is written. |
| VirtioConsole.Console.DrainReceive | soc/virtio_console.py:45-55 | The oldest chains take the input off its front, each as much as it holds, until input or chains run out: input == delivered ++ still pending, with a used entry for each piece and the interrupt raised exactly if there was one. |
| VirtioConsole.Console.Feed | soc/virtio_console.py:23-25 | New input joins the end of the pending input and is delivered as far as chains allow. |
| VirtioConsole.Console.Notify | soc/virtio.py:184-186 | A notification drains the named queue once DRIVER_OK is set, raising the interrupt as draining does, and does nothing before. |
| VirtioConsole.Console.WriteQueue | soc/virtio.py:178-211 | Queue registers go to the selected queue; QUEUEREADY captures them in a new queue with its counter at 0. |
| VirtioConsole.Console.Write32 | soc/virtio.py:171-204 | Selection, status with reset at 0, interrupt acknowledge and emergency write; every other register leaves the state alone. |
| ConsoleProtocol.HandedOver | soc/zpu_virtio_console.c:74-82 | Filling the descriptor and publishing it hands over exactly that buffer and touches nothing outside the queue. |
| ConsoleProtocol.PollSees | soc/zpu_virtio_console.c:129-135 | The poll of the used index sees a change exactly when a completion has arrived, so none is skipped, and reads its length. |
| ConsoleProtocol.DeviceAnswers | soc/zpu_virtio_console.c:74-83 | A handed-over buffer is either filled with the front of the input or left waiting because there is none. |
| ConsoleProtocol.InputWaits | soc/virtio_console.py:45-55 | Input arriving while nothing is pending stays with the device and leaves queue and memory alone. |
| ConsoleProtocol.RxWordKeeps | soc/zpu_virtio_console.c:75-80 | While nothing is in flight, the stores into the descriptor and the ring slot publish nothing. |
| ConsoleProtocol.WriteDone | soc/zpu_virtio_console.c:112-114 | After the notification the transmit poll ends at once and the receive side is untouched. |
| ConsoleDriver.Driver.ConfigureQueue | soc/zpu_virtio_console.c:64-72 | The register writes make a one-entry queue at the three given addresses. |
| ConsoleDriver.Driver.Init | soc/zpu_virtio_console.c:85-101 | From zeroed statics the driver becomes ready and input that arrived earlier is not lost. |
| ConsoleDriver.Driver.PostReceive | soc/zpu_virtio_console.c:74-83 | The drained buffer goes back to the device while input may arrive between any two of its stores; the device fills it when it is told, or before, once its index is stored; nothing is lost or repeated. |
| ConsoleDriver.Driver.Answer | soc/virtio_console.py:45-55 | Whether the device looks because it is notified or because input arrived, a buffer on offer takes the front of the input, a buffer that still holds bytes is not written, and nothing else is. |
| ConsoleDriver.Driver.Write | soc/zpu_virtio_console.c:103-115 | When it returns, exactly the given bytes have been output, with input arriving between any two of its loads and stores, unless the buffer is one that input is written to. |
| ConsoleDriver.Driver.Putc | soc/zpu_virtio_console.c:117-121 | When it returns, exactly the byte has been output. |
| ConsoleDriver.Driver.Getc | soc/zpu_virtio_console.c:128-140 | Polls until a byte has arrived and returns exactly the next byte; it goes on polling for ever only when nothing more arrives and every byte that did was returned. |
| ConsoleDriver.Driver.KeepBack | soc/virtio_console.py:45-55 | While no buffer is with the device, at any point of handing one over, arriving input changes nothing but the pending input. |
| ConsoleDriver.Driver.MomentOpen | soc/virtio_console.py:23-25 | What arrives at a moment is added to what is owed, and the device writes nothing but the receive buffer and used ring. |
| ConsoleDriver.Driver.Session | soc/zpu_virtio_console.c:74-140 | For every sequence of putc and getc calls with input arriving between any two loads and stores of the driver: bytes returned, held, waiting in the device and still to come are all the bytes that ever arrive, in order, and the output is the bytes put, in order. |
| Digits.NumeralDenotes | libc/stdio.c:22-37 | A numeral denotes its number, consists of digits of its base and has no leading zero, in every base up to 16. |
| Digits.NumeralsDiffer | libc/stdio.c:22-37 | Different numbers have different numerals. |
| Digits.NumeralFits | libc/stdio.c:23 | No 32-bit word needs more than ten digits, so the 12-byte buffers suffice. |
| Digits.FormatDigits | libc/stdio.c:22-37 | Collecting digits from the low end and reversing them yields the numeral, in base 10 and 16. |
| Formats.NumeralIs | libc/stdio.c:22-37 | The numeral of v, digit by digit: the i-th from the right is the lower-case digit of v / base^i modulo the base, and there are just as many as v needs. |
| Formats.NumeralIsUnique | libc/stdio.c:22-37 | A number has only one such numeral. |
| Digits.Atoi | libc/stdlib.c:104-118 | Blanks, sign, digits: the integer spelled, in wrapping int arithmetic. |
| Formats.SpelledReads | libc/stdlib.c:104-118 | Any blanks, a sign or none, any digits and whatever follows spell the number of the digits with that sign. |
| Printf.PaddedSpells | libc/stdio.c:110-125 | A numeral spells its number under every alignment, zero padding, width and sign. |
| Printf.PrintThenAtoi | libc/stdio.c:48-128 | atoi of what a %d or %i directive prints is the value, for every word (the smallest int included), every flag and every width. |
| PrintfLoop.ParseFlags | libc/stdio.c:60-70 | The flag loop reads every - and 0. |
| PrintfLoop.ParseWidth | libc/stdio.c:71-73 | The width loop reads the digits in wrapping int arithmetic. |
| PrintfLoop.Convert | libc/stdio.c:74-102 | Sign and digits of each conversion; the smallest int prints its magnitude although its negation wraps. |
| Formats.PrintsField | libc/stdio.c:74-127 | For every directive and argument: %d and %i print the signed word and %u the unsigned one in base 10, %x in base 16, %c the low byte, %s the bytes, %% a percent sign; a minus flag puts blanks behind, else a zero flag zeros between sign and digits, else blanks in front, up to the width; any other character is printed behind a percent sign. |
| Formats.ParseReads | libc/stdio.c:60-74 | Flags in any order and number, digits and a character are read as the directive with those flags, that width as an int and that conversion. |
| Formats.FormatReads | libc/stdio.c:48-74 | Characters other than % stand for themselves, and a directive behind a % is followed by the pieces of the rest. |
| Formats.RenderJoin | libc/stdio.c:48-128 | Output of pieces is output of the first ones with the arguments they take, followed by that of the rest with the rest. |
| PrintfLoop.EmitField | libc/stdio.c:110-125 | The three layouts of a padded field. |
| Printf.StopsAtNul | libc/stdio.c:48-128 | With any memory behind the string, a loop that passes over every character it emits (printf and sprintf) stops at the format's own NUL, having read its pieces, if and only if the format does not end inside a directive; otherwise it takes the NUL for a conversion and goes on behind it. |
| Printf.CutShort | libc/stdio.c:103-108 | A failing input: for %5 the loop prints a percent sign and a NUL and continues with the bytes behind the string. |
| Printf.ParseBefore | libc/stdio.c:60-74 | A directive reads the same whatever lies behind the NUL, unless it is cut short, and then its conversion is the NUL. |
| PrintfLoop.VFormat | libc/stdio.c:48-128 | Expanded for sprintf, one pass over the memory from the format on emits exactly the rendered pieces in order, counts them, and ends at the NUL the scan ends at, cut short or not. |
| PrintfLoop.Sprintf | libc/stdio.c:141-152 | The whole output, a NUL, nothing else; returns its length. |
| Snprintf.Snprintf | libc/stdio.c:154-167 | For every buffer size and any number of rounds: done, result and buffer are those of the loop over the items, closed with a NUL. The untruncated length is returned only when every literal is met before the last place, and then the buffer holds the cut output; when they all are, one round an item is enough. |
| Snprintf.VFormatBounded | libc/stdio.c:48-128 | The loop over the memory, its literal evaluated only where it is stored (line 160), is round for round the loop over the items, and ends at the NUL the scan ends at. |
| Snprintf.CountsExactly | libc/stdio.c:154-167 | The bounded loop ends with the untruncated length counted if and only if every literal is met before the limit. |
| Snprintf.EndsExactly | libc/stdio.c:154-167 | The bounded loop ends if and only if the limit is above zero or the format has no literal. |
| Snprintf.Ends | libc/stdio.c:160 | With a limit above zero a literal met at the limit is stored at the front after the position has wrapped; what is counted in the end is less than the whole. |
| Snprintf.LetterHangs | libc/stdio.c:48-52 | A failing input: with the format a and size 0 or 1 the loop never moves on, whatever the number of rounds. |
| Snprintf.FourthGoesFirst | libc/stdio.c:48-52 | A failing input: with the format abcd and size 4 the loop waits 2^32 - 3 rounds, stores the d at the front and returns 1. |
| PacketStream.Stream.Next | gdb/gdbstub.py:54-78 | Acknowledgements, interrupts, packets and junk: the specified event, and exactly the specified bytes removed. |
| PacketStream.NextExtends | gdb/gdbstub.py:54-78 | An event that was recognised stays the same however many bytes follow, and a wait only skips what starts nothing. |
| PacketStream.DrainExtends | gdb/gdbstub.py:47-78 | Draining part of a stream and then the rest behind the leftover gives the events and leftover of draining it at once. |
| PacketStream.Stream.Session | gdb/gdbstub.py:47-78 | For every interleaving of feeds and polls, events reported followed by events still in the buffer are those of the whole stream, with the same leftover. |
| PacketStream.MessagesRoundTrip | gdb/gdbstub.py:39-78 | For every mixture of acknowledgements (0x2b), refusals (0x2d), interrupts (0x03), meaningless bytes, frames and frames with another checksum: the events come out in the order sent, a bad packet for a wrong checksum, and nothing is left over. |
| PacketStream.NumberIsHexInt | gdb/gdbstub.py:72 | The two checksum characters read as Python's int(text, 16) reads them: blanks at both ends, a sign, hexadecimal digits in either case; anything else raises. |
| PacketStream.DamageIsNoticed | gdb/gdbstub.py:72-77 | Changing one data byte of a frame to anything but # yields a bad packet. |
| PacketStream.DamageToHash | gdb/gdbstub.py:64-77 | Changing it to # cuts the packet short: the front of the data is reported as a packet if and only if the two bytes behind read as its checksum, a bad packet if they read as another number, and the stub raises if they are none. |
| PacketStream.CutUnnoticed | gdb/gdbstub.py:64-77 | A failing input: aX61 with its second byte changed to # is reported as the packet a. |

## Left out

- Parsing of ELF files, command lines, map files and output files: the linker starts from records of sections, symbols and relocations.
- Tokenising of assembler source: the assembler starts from rows of labels, mnemonic and operand, numbers already read.
- StepOnce: a failing step leaves the object's state unspecified, as after an exception, and here as elsewhere which error was raised is not distinguished.
- NaN payloads beyond what the code returns literally; `__fixunssfsi`, which only drops the sign case of `Fix`.
- The simulator's stack listing and main program, the register, memory and network code of the debugger stub, the uart, the video device, terminals and subprocesses.
- Register reads of the virtio device, the feature selection registers it stores but never reads, and `zpu_virtio_console_puts`, which is a loop over putc.
- `printf`, which differs from `sprintf` only in where a character goes; `rand`, `abs`, `exit`, character classes and the string functions other than memset and memcpy.
- Division by zero in the integer runtime and 64-bit shifts by 64 or more, which C leaves undefined.
- Self-modifying code: the source-level machine stops at a step that overwrites code or jumps to an address at which no instruction starts.
- Cyclic descriptor chains and rings, tables and buffers that overlap, which the protocol excludes.
- Session: `Driver.Session` covers runs after one initialisation; a second one would restart the counters of a device that is still running. No input arrives between the register writes of the initialisation. In `HeapSession.Session` a pointer that is not held, a size that wraps and a store behind the end are not passed on.
- Getc: None stands for a poll that would go on for ever because nothing more arrives.
- Next: the loop over junk bytes is a recursion in the source (`gdb/gdbstub.py` line 78); a run of junk longer than the interpreter's recursion limit raises there when it arrives in one piece.
- Write: the transmit poll is an assertion that the index has already changed, because the device answers within the notification; the length is not negative and the buffer lies in memory apart from the transmit queue.
- WriteQueue: the register write is split by the kind of register into WriteQueue, Write32 and Notify, because each has its own frame.
- Qsort: the comparator is a function of the two records' bytes and must be a total preorder on the records being sorted; record count times width is assumed not to wrap.
- Realloc: assumes requests of at most 2^32 - 4 bytes for a live pointer, above which the new block is too small (`HandedOutHolds`) and the copy would leave it; the payload is copied by whole words, which is what the byte loop does on aligned payloads.
- Calloc: assumes that the 32-bit product is at most 2^32 - 4, above which clearing would leave the heap (`HandedOutHolds`); a product that wraps is modelled as the code computes it.
- VFormat: assumes that arguments have the kinds the directives ask for and strings fewer than 2^31 bytes, that the memory read from the format on holds a NUL at which the loop ends, and that the whole output is shorter than 2^32 bytes; so does VFormatBounded.
- Sprintf: assumes a buffer that holds the whole output and its NUL.
