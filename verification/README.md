# Tiny Machine in Dafny

A model of the Tiny Machine, the toy register computer of `tinyvm.go`, with
proofs about it. The model covers three parts:

- **Decoder.** It reads one line of assembly (`ADD 1,2,3`, `LD 0,4(5)`) into an instruction and prints instructions back. This is `parseROop`, `parseRMop`, `parseInstruction` and `TinyInstruction.String`.
- **Loader.** It reads a program text line by line. Blank lines and comment lines are skipped, and every other line is decoded into the next slot of instruction memory, until the first line that fails. This is `loadProgram`.
- **Engine.** It holds eight `int32` registers, register 7 being the program counter, plus data memory, instruction memory and a sticky CPU state. This is `initializeMachine`, `resetState`, `stepProgram` and `runProgram`.

Modules, in dependency order:

| file | module | contents |
|---|---|---|
| `wrappers.dfy` | `Wrappers` | `Option`, `Result` |
| `word32.dfy` | `Word32` | `int32` wrap-around, Go's truncating `/` |
| `text.dfy` | `Text` | the effect of the Go library calls the decoder uses: `strings.Index`, `Split`, `TrimSpace`, the `" +"` rewrite, `[[:alnum:]]` |
| `decimal.dfy` | `Decimal` | `strconv.ParseInt(s, 10, 32)` and `%d` |
| `isa.dfy` | `Isa` | opcodes, operand formats, the instruction record, well-formedness |
| `decoder.dfy` | `Decoder` | operand parsers, line decoder, serialiser, round trip |
| `engine.dfy` | `Engine` | machine state, set-up, step, bounded run |
| `loader.dfy` | `Loader` | line splitting, line filter, the load loop |
| `examples.dfy` | `EngineCases` | concrete machines from the repository's engine tests |

Modelling choices:

- Integers are `int` restricted to `Int32`. Every `int32` operation of the source is written out as a wrap modulo 2^32 (`Wrap`). This covers ADD, SUB, MUL and the effective address `s + registers[t]`. Division is Go's truncation toward zero, with `MinInt32 / -1` wrapping to `MinInt32`.
- The program counter stays inside the register sequence. An instruction with `r = 7` overwrites it, as in the source. The step moves the program counter to `pc + 1` before it computes anything. So an instruction reading register 7 sees `pc + 1`, and a faulting instruction still leaves the counter advanced.
- The source dispatches on the mnemonic text. The model uses one closed `Opcode` type, and `WellFormed` ties the format tag to the opcode's class. The engine needs only `OperandsInRange`:
  - all three operands are registers for `r,s,t` opcodes;
  - `r` and `t` are registers for `r,s(t)` opcodes.
- Memory capacity comes from a command-line flag in the source. Here it is the parameter `cap`, with `1 <= cap` and `cap` an `Int32`.
- `IN` reads the next number from the machine's `input` sequence. When the sequence is empty it stores 0, the default `readNumber` returns on a read or parse error. `OUT` appends to the `output` sequence.
- `runProgram` need not terminate. `Run` takes a fuel bound and stops early at the first state that is not `Running`.
- The loader's loop is the method `Fill`, written for any line decoder. `LoadProgram` uses it with `ParseInstruction`. `Pass` is its functional reference.

## Model

| member | source | states |
|---|---|---|
| Word32.Wrap | tinyvm.go:252-256 | the result is the `int32` congruent to the exact value modulo 2^32, and equals it when it is in range |
| Word32.CongruentInt32AreEqual | tinyvm.go:252-256 | two `int32` values congruent modulo 2^32 are equal, so the wrap is unique |
| Word32.WrapCongruent | tinyvm.go:240 | congruent integers wrap to the same `int32` |
| Word32.TruncDiv | tinyvm.go:261 | Go's division law: the remainder is smaller than the divisor in magnitude and has the dividend's sign |
| Word32.Div32 | tinyvm.go:261 | `int32` division is the truncated quotient, except `MinInt32 / -1`, which wraps to `MinInt32` |
| Word32.OnlyOverflowingQuotient | tinyvm.go:261 | the only `int32` quotient outside `int32` comes from `MinInt32 / -1` |
| Text.HasAlnum | tinyvm.go:356-357 | a line the `[[:alnum:]]` class matches is non-empty, and a line of white space only never matches |
| Text.HasAlnumAppend | tinyvm.go:356-357 | the match may lie anywhere: a concatenation matches iff one of its parts does |
| Text.IndexOf | tinyvm.go:112-114 | `strings.Index`: the first position of the character, or -1 exactly when it is absent |
| Text.Split | tinyvm.go:84 | `strings.Split` gives at least one piece, and a string without the separator is its own piece |
| Text.SplitPartFree | tinyvm.go:84 | no piece of a split contains the separator |
| Text.JoinSplit | tinyvm.go:84 | joining the pieces of a split with the separator restores the string |
| Text.SplitJoin | tinyvm.go:150 | splitting separator-free pieces joined by the separator gives them back |
| Text.CollapseSpaces | tinyvm.go:148-149 | the `" +"` rewrite never lengthens a line and keeps its first character |
| Text.CollapseNoDoubleSpaceResult | tinyvm.go:148-149 | after the rewrite no two spaces are adjacent |
| Text.CollapseKeepsNonSpaces | tinyvm.go:148-149 | the rewrite keeps every non-space character in order (tabs included) |
| Text.CollapseKeepsSpace | tinyvm.go:148-149 | the result has a space iff the line had one |
| Text.CollapseNoDoubleSpace | tinyvm.go:148-149 | a line without double spaces is unchanged |
| Text.CollapseIdempotent | tinyvm.go:148-149 | rewriting twice is rewriting once |
| Text.CollapseSpaceRun | tinyvm.go:148-149 | a run of spaces before space-free text becomes one space |
| Text.TrimSpace | tinyvm.go:149 | `strings.TrimSpace` neither lengthens nor leaves white space at either end |
| Text.TrimSpaceIsSlice | tinyvm.go:149 | the trim is a slice with only white space cut off on either side |
| Text.TrimSpaceUnchanged | tinyvm.go:149 | text without white space at its ends is its own trim |
| Decimal.ParseInt32 | tinyvm.go:91 | accepted text starts with a sign or a digit and ends in a digit; `ParseInt32Accepts` gives the full grammar and the value |
| Decimal.ParseInt32Accepts | tinyvm.go:91 | `ParseInt(s, 10, 32)` succeeds iff there is an optional sign, at least one digit and the value fits `int32`; the value is the digits' value, negated after `-` |
| Decimal.FormatInt | tinyvm.go:74 | `%d` text is non-empty and made of digits and `-`; `ParseFormatInt` is its inverse on `int32` |
| Decimal.ParseFormatInt | tinyvm.go:74 | parsing the `%d` text of an `int32` gives it back |
| Decimal.FormatParseCanonical | tinyvm.go:74 | on text in `%d` form, printing the parsed value gives the text back |
| Isa.FormatOf | tinyvm.go:155-164 | LD and ST, and only they, take the memory form `r,s(t)`; every jump takes the address form; no jump, LDA or LDC takes the `r,s,t` form |
| Isa.ParseOpcode | tinyvm.go:155-166 | a recognised mnemonic is the printed name of the opcode returned |
| Isa.ParseMnemonic | tinyvm.go:155-166 | every opcode's mnemonic is recognised as that opcode |
| Isa.ParseOpcodeRejects | tinyvm.go:165-166 | an unrecognised text is no opcode's mnemonic |
| Decoder.RegisterField | tinyvm.go:91-100 | a field is accepted iff it is an `int32` in [0,8). A non-integer reports the whole operands, an out-of-range integer reports itself |
| Decoder.ParseRO | tinyvm.go:83-106 | a field count other than 3 reports the whole operands; success gives three registers |
| Decoder.ParseROAccepts | tinyvm.go:83-106 | `parseROop` succeeds iff there are three fields, each a register number, and returns them in order |
| Decoder.ParseROFirstBadField | tinyvm.go:90-101 | on failure with three fields, the first bad field from the left decides the error |
| Decoder.ParseRM | tinyvm.go:109-139 | misplaced delimiters (`x < 1 \|\| y < x \|\| z < y`) report the whole operands; success gives registers `r` and `t` |
| Decoder.ParseRMAccepts | tinyvm.go:109-139 | `parseRMop` succeeds iff the delimiters are in place, `r` and `t` are registers and `s` is any `int32`, and returns the three pieces |
| Decoder.ParseRMBadRegister | tinyvm.go:121-131 | a bad-register error names `r` when `r` is out of range, else `t` once `s` parsed; the piece it names is always an integer |
| Decoder.ParseRMBadFirstRegister | tinyvm.go:128-131 | a delimited operand whose `r` is an `int32` outside [0,8) reports `r` as a bad register, as `10,1(1)` reports `10` |
| Decoder.ParseRMBadBaseRegister | tinyvm.go:128-131 | with `r` a register and `s` an `int32`, a `t` that is an `int32` outside [0,8) is reported as a bad register, as `1,1(12)` reports `12` |
| Decoder.ParseRMMalformed | tinyvm.go:119-126 | a piece that is not an `int32`, reached before any bad register in left-to-right order, is `Invalid arguments` with the whole operands, never a bad register |
| Decoder.ParseRMIgnoresTrailing | tinyvm.go:112-122 | text after the first `)` of decodable operands changes nothing |
| Decoder.ParseInstruction | tinyvm.go:141-180 | anything other than two tokens after collapse and trim is `Invalid instruction`; otherwise the tokens decide; success is well formed |
| Decoder.DecodeTokens | tinyvm.go:155-176 | success carries the mnemonic written and operands that reparse to it; an unknown mnemonic is `Invalid opcode`; a known one with bad operands is `Invalid arguments` |
| Decoder.NoSpaceNoInstruction | tinyvm.go:148-153 | a line with no space, such as one with a tab between the tokens, is `Invalid instruction` |
| Decoder.SingleSpaced | tinyvm.go:148-152 | a mnemonic, one space and operands decode from exactly those two tokens |
| Decoder.RegisterFieldRoundTrip | tinyvm.go:91-100 | the `%d` text of a register number is accepted as that register |
| Decoder.ParseROFormat | tinyvm.go:69-106 | `%d,%d,%d` of three registers parses back to them |
| Decoder.ParseRMFormat | tinyvm.go:69-139 | `%d,%d(%d)` of two registers and any `int32` parses back to them |
| Decoder.Render | tinyvm.go:69-80 | the mnemonic left-justified in four columns, one space, then the operand text, which has no space; `RenderRoundTrip` is its inverse |
| Decoder.RenderTokens | tinyvm.go:148-150 | a printed instruction splits into its mnemonic and its operand text |
| Decoder.RenderRoundTrip | tinyvm.go:69-180 | decoding the printed form of a well-formed instruction gives the instruction |
| Decoder.DecodeRenderDecode | tinyvm.go:69-180 | every decoded instruction prints as a line that decodes to it again |
| Engine.Initialize | tinyvm.go:186-210 | registers 0; data 0 except slot 0 holding `cap - 1`; state running; program all `HALT 0,0,0` when cleared, else kept; valid when it fits |
| Engine.Reset | tinyvm.go:214-217 | the program is kept; registers 0, data 0 but `cap - 1` in slot 0, running; valid again when the program fills memory with in-range operands |
| Engine.InitializeIdempotent | tinyvm.go:186-210 | setting up twice is setting up once |
| Engine.ResetUndoesRun | tinyvm.go:214-217 | resetting after a run gives the reset of the starting machine, apart from the console |
| Engine.Advanced | tinyvm.go:229-230 | the program counter moves to `pc + 1` and no other register changes |
| Engine.Address | tinyvm.go:240 | the address is congruent modulo 2^32 to `s + registers[t]`, read after the counter moved on, and equals it when that sum is in range |
| Engine.Step | tinyvm.go:219-228 | a stopped machine is unchanged; an out-of-range program counter is an instruction fault with nothing else changed; validity, capacity and program are kept |
| Engine.Execute | tinyvm.go:242-303 | an instruction keeps validity, capacity and program; only HALT, DIV, LD and ST change the CPU state, to halted, divide by zero and data fault |
| Engine.StepAdvancesPc | tinyvm.go:229-230 | a non-jump that does not write register 7 leaves `pc + 1`, also when it faults |
| Engine.StepFrame | tinyvm.go:243-303 | a step changes no register but the program counter and `r`, data only on `ST`, input only on `IN`, output only on `OUT` |
| Engine.StepArithmetic | tinyvm.go:251-256 | ADD/SUB/MUL store the exact result modulo 2^32 into `r` and keep running |
| Engine.StepDivide | tinyvm.go:257-262 | DIV faults iff the divisor is 0 and then keeps `r`; otherwise `r` gets the truncated quotient, `MinInt32 / -1` giving `MinInt32` |
| Engine.StepLoadConstant | tinyvm.go:265-266 | LDC stores the literal `s` |
| Engine.StepLoadAddress | tinyvm.go:263-264 | LDA stores `s + registers[t]` wrapped |
| Engine.StepLoad | tinyvm.go:267-272 | LD faults iff the address is outside data memory, and then keeps every register but the counter; otherwise it copies that one cell |
| Engine.StepStore | tinyvm.go:273-278 | ST faults iff the address is outside data memory, and then keeps data; otherwise it writes exactly that cell |
| Engine.StepJump | tinyvm.go:279-302 | a conditional jump sets the counter to the address iff `registers[r]` compares to 0 as named |
| Engine.StepHalt | tinyvm.go:243-244 | HALT stops the machine with the counter advanced |
| Engine.StepInput | tinyvm.go:245-248 | IN stores the next input, or 0 when there is none |
| Engine.StepOutput | tinyvm.go:249-250 | OUT appends `registers[r]` to the output |
| Engine.Run | tinyvm.go:324-331 | a bounded run keeps validity, capacity and program, and gives a stopped machine back unchanged; `RunIsStepN` relates it to plain stepping |
| Engine.StoppedStaysStopped | tinyvm.go:220-223 | any number of steps leaves a stopped machine unchanged |
| Engine.StepNAdd | tinyvm.go:324-331 | `a + b` steps are `a` steps and then `b` steps |
| Engine.RunIsStepN | tinyvm.go:324-331 | stopping at the first non-running state is the same as stepping the full budget |
| Engine.RunSettles | tinyvm.go:324-331 | once a run has stopped, more fuel changes nothing |
| Engine.RunStillRunning | tinyvm.go:324-331 | a run that ends running was running at every step before |
| Loader.Lines | tinyvm.go:344-353 | the lines read hold no newline |
| Loader.LinesUnlines | tinyvm.go:344-349 | text as newline-terminated lines plus an unterminated tail reads as exactly those lines; the tail is dropped |
| Loader.Kept | tinyvm.go:355-360 | a kept line is non-empty and does not start with `*`; a blank or all-white-space line is never kept |
| Loader.Pass | tinyvm.go:354-370 | the pass yields at most one instruction per line |
| Loader.PassSucceeds | tinyvm.go:354-370 | the pass succeeds iff every kept line decodes, and then yields the kept lines' instructions in order |
| Loader.PassFailure | tinyvm.go:354-367 | a failure names the first kept line that does not decode: its 1-based line number, its text and its error; earlier kept lines decoded and supplied the instructions |
| Loader.PassSource | tinyvm.go:362-369 | every instruction loaded came from a kept line |
| Loader.DecodedWellFormed | tinyvm.go:362-369 | every instruction loaded is well formed |
| Loader.Place | tinyvm.go:369 | instructions fill slots from 0 and `HALT 0,0,0` fills the rest |
| Loader.Fill | tinyvm.go:344-376 | the loop leaves exactly the placed pass result in memory and reports the pass's failure |
| Loader.LoadProgram | tinyvm.go:333-376 | the loaded machine is the freshly set-up one with the placed instructions, also after a failure; the result is true iff no line failed |
| Loader.LoadedReady | tinyvm.go:339-369 | a loaded machine is valid and running, with registers 0, `cap - 1` in data slot 0, the instructions from slot 0 and `HALT` after |
| Loader.NothingKept | tinyvm.go:355-360 | a program with no kept line, the empty program included, loads as all `HALT` |
| Loader.KeptLinesIncludes | tinyvm.go:355-360 | every line the filter keeps is among the kept lines |
| EngineCases.AddWraps | tinyvm_test.go:343-375 | `1 + MaxInt32` is `MinInt32` |
| EngineCases.SubWraps | tinyvm_test.go:378-410 | `-1 - MinInt32` is `MaxInt32` |
| EngineCases.DivideByZeroFaults | tinyvm_test.go:275-305 | dividing by a zero register faults and keeps the target |
| EngineCases.DivideTruncates | tinyvm_test.go:275-305 | `2 / 10` is 0, as the test expects; `-7 / 2` is -3 is an added case for truncation of a negative dividend |
| EngineCases.LoadOutOfRange | tinyvm_test.go:740-771 | LD past the end of data memory is a data fault |
| EngineCases.RunToHalt | tinyvm_test.go:237-272 | SUB, SUB, HALT: the run halts with the counter at 3, and a further step changes nothing |

## Left out

- Console output is not modelled. This covers `speak`, the trace printing, the messages of `handleCpuState`, and `dumpRegisters`, `dumpMemory` and `dumpProgram`. It changes no machine state.
- The interactive shell is not modelled: `Interact`, the menu handlers and `main`. They handle flag parsing, opening files and exiting the process. The `--mem_size` flag is converted from `uint64` to `int32` in the source; here it is the parameter `cap`, assumed already in range.
- `readNumber` is stdin I/O. It is replaced by the `input` sequence, and an empty sequence stands for the default 0 the source falls back to.
- The loader's read errors other than end of input, and its `speak` of the file name, are not modelled. Program text is a `string`; the source reads bytes, and the two agree on ASCII programs.
- `Loader.LoadProgram`: requires that the decoded lines fit in `cap` slots. A longer program makes the source index past the end of instruction memory, which is a runtime panic.
- `Engine.Step`: requires `Valid`, which asks more than the source needs. `Valid` wants `OperandsInRange` for every slot of instruction memory, fetched or not, and for every opcode. The source indexes `registers[t]` for each fetched instruction, but `registers[r]` and `registers[s]` only for the opcodes that use them: HALT uses neither, IN and OUT never use `s`. A slot that is never fetched cannot fail at all. The decoder never produces an out-of-range operand, so the difference affects only programs built by hand.
- `Engine.Reset`: keeps the machine's pending `input` unchanged, and so does `Engine.Initialize`. The source makes a fresh `bufio.Reader` on standard input each time (tinyvm.go:209), which drops whatever the old reader had buffered but not yet consumed. The model does not track that buffer.
- `Engine.Run`: runs at most `fuel` steps. A program that loops for ever is seen only through finite prefixes of its run.
- `Decoder.ParseInstruction`: a line is a sequence of characters, not UTF-8 bytes. `strings.TrimSpace` trims the full `unicode.IsSpace` set of those characters.
- `Loader.Kept`: `[[:alnum:]]` is the ASCII letters and digits, as in Go's `regexp`.
- The error messages of the decoder and loader are modelled as the functions `Decoder.OperandMessage`, `Decoder.DecodeMessage` and `Loader.FailureMessage`, and no property is stated about them.
