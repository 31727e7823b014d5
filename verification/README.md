# vek: a verified model of the compiler, the virtual machine and the runtime library

vek is a small scripting language: a single-pass compiler, a stack machine with closures, a mark-sweep
collector, interned strings and hash maps, and a library for the web. This project models the parts of it that
other parts rely on and proves what they are for.

- **Scripts.** `Syntax`, `Parsing` and `Printing` give the grammar and a minimally parenthesised printer,
  `Precedence` says without the table of levels how operators are read, and `Minimality` proves that no shorter
  tokens mean the same; `Evaluation` gives scripts a big-step meaning;
  `Codegen` and `Machine` give the bytecode and the machine; `Simulation`, `CompilerCorrectness` and `Boundaries` prove that the bytecode means what the script means and
  that control stays on instruction boundaries. `Compiling` is the compiler as it works, one pass that emits and
  patches bytes while it reads tokens, proved equal to parsing followed by code generation; `Chains` says for which
  scripts its array of exit jumps is long enough. `Scripts` puts all this together. `Values` and `Runtime` are
  boxed words and operators. What operators compute, in terms of integers, bits and the order of strings, is in
  `Operators`; what whole scripts compute, from their tokens to their globals, in `ScriptValues` and `Programs`; their
  bytes in `ScriptBytes`; and the limits of the format in `Limits`.
- **Closures.** `Upvalues` proves that captured variables which stay on the stack until they are closed behave
  like heap cells, and `UpvalueLaws` what single calls, returns and captures do; `OpenUpvalues` is the linked list with its pointers; `Resolution` and `FunctionCompilers` are
  the static side; `Scopes` joins the two where a scope ends, `ClosureHistory` over whole runs.
- **Memory.** `Tracing` and `Collecting` are the collector, and `References` says, field by field, which objects an
  object refers to; `Probing`, `Rehashing`, `ObjMaps`, `Interning`
  and `InternTombstones` are the two hash tables.
- **Codecs.** `JsonText`, `JsonTrailing`, `JsonGrammar`, `JsonMeaning`, `Utf8Text` and `JsonCodec`, `Base64`,
  `Sessions`, `SessionTexts` and `SessionStore`, `Crc32`, `Deflate`, `DeflateFormat` and `GzipFormat`, `Vebc`,
  `VebcRoundTrip`, `VebcBounds`, `VebcFiles` and `VebcExample`.
- **Web.** `Routes`, `RoutePaths` and `Router`, `Http`, `ContentLength`, `HttpFraming`, `HttpFields` and
  `HttpParser`, `Markdown`, `MarkdownElements` and `MarkdownRendering`, `RateLimit` and `RateLimitWords`.

A specification function that the code is proved against is not left to speak for itself: reading and writing are
tied to texts that are written down (a grammar, a request, a file byte by byte), operators to integers and bits, and
references to the fields of objects, in statements that do not use those functions.

Where the source changes state there is a class or a method with loops, proved against a specification function,
and the properties are proved about that function. Doubles are an opaque carrier with the operations of the C
library as parameters; the message digest of sessions and of `.vebc` files is a parameter too.

Where the code does not do what its comments or its structure suggest, the code is modelled and the exact
condition is proved:

- The test for too many upvalues cannot fire, because the count is a byte that wraps at 256 first
  (`Resolution.AddKeepsIff`, `Resolution.ResolveExtendsIff`); three nested functions reach it
  (`Resolution.LastCaptureLosesAll`).
- The exit jumps of an `if` chain are kept in an array of 256 without a check, which the 257th arm overruns
  (`Chains.ScriptInRangeIff`, `Chains.TooManyArms`).
- Both hash tables grow by the number of live entries, so tombstones can use up every NULL slot; then a probe for
  a missing key does not end (`Probing.TerminatesIff`, `ObjMaps.FillWithTombstones`,
  `InternTombstones.FillWithTombstones`).
- The open-upvalue list stays sound exactly as long as OP_POP drops no captured slot
  (`Upvalues.PopKeepsListIff`, `Upvalues.CapturedPopDiverges`).
- A session that holds lists or maps does not come back from its cookie (`Sessions.RestoredIffFlat`).
- The line table of a `.vebc` file cannot hold a first line of -1 (`VebcRoundTrip.LinesRestoredIff`), and
  constants that are nil, bools or functions do not come back (`VebcRoundTrip.KeptIff`).
- `inflate` checks neither NLEN nor the block type nor that the last block is there; the standard accepts exactly
  the inputs in which putting these right changes nothing (`DeflateFormat.InflateByStandardIff`,
  `DeflateFormat.InflateReadsRepaired`, `DeflateFormat.OneByteBlock`,
  `DeflateFormat.IncompleteBlock`).
- `gunzip` checks neither the reserved flags nor the checksums nor the size (`GzipFormat.GunzipByStandardIff`,
  `GzipFormat.TrailerIsNotChecked`), and its check of the extra field cannot fail on input of 18 bytes or more
  (`GzipFormat.ExtraCheckIff`).
- A Content-Length is read modulo 2^64, other bytes in it are skipped, of several the last one counts, and a
  Transfer-Encoding is ignored (`HttpFraming.FramedByStandardIff`, `HttpFraming.OneNumberIff`,
  `HttpFraming.RequestFramedOtherwise`, `HttpFraming.NotByStandard`, `HttpFraming.ChunkedRequest`).
- `json.decode` accepts numbers and strings that are no JSON and ignores text after the value
  (`JsonGrammar.JsonTextIff`, `JsonGrammar.AcceptedBeyondIff`, `JsonGrammar.AcceptedExamples`,
  `JsonTrailing.ValueIsFrontIff`); its nil may be a value or a failure (`JsonTrailing.NullIff`,
  `JsonTrailing.NullExamples`).
- A surrogate pair in a JSON string is read as two characters (`JsonMeaning.StandardIff`).
- A literal route segment of more than 127 bytes is cut, and the route then does not match its own path
  (`Routes.OwnPathIff`).
- The loader of `.vebc` files adds offsets in 32 bits, so some malformed files are read outside their bounds
  (`VebcBounds.ReadsInsideIff`).
- A long rest of a bucket overflows the refill of the rate limiter (`RateLimitWords.DefinedIff`,
  `RateLimitWords.RestIff`, `RateLimitWords.LostRefill`).

`Bytes`, `Buffers`, `Options` and `Sequences` are shared helpers. `dafny verify dfyconfig.toml` checks everything.

## Model

| member | source | states |
|---|---|---|
| Scripts.CompiledTokensRun | src/compiler.c:1298-1319 | For every token sequence that compiles, its exit jumps staying inside their array, and every amount of fuel, running the emitted bytes ends as the big-step meaning of the parsed script does: the same globals, or the same run-time error with the same globals, or still running after at least that many steps |
| Scripts.StoppedTokensRun | src/vm.c:1391-1409 | The converse: whenever a run of such a compiled script stops, the meaning of its tokens is that outcome; it never reaches an undefined state, and until it stops the instruction pointer is on an instruction boundary |
| Scripts.PrintedScriptCompiles | src/compiler.c:790-868 | The minimally parenthesised print of any well-formed tree with at most 256 guarded arms in a chain compiles to exactly the code of that tree, or is rejected exactly when the tree breaks a limit of the bytecode |
| Scripts.Interpret | src/vm.c:1391-1409 | Compiling such tokens and then running for a given number of instructions gives the outcome that the meaning of the tokens prescribes, or no program when the tokens do not compile; what it computes is in Operators and ScriptValues |
| CompilerCorrectness.CompiledScriptRuns | src/vm.c:1447-2190 | The code generated for a tree simulates its evaluation: normal end, run-time error with the globals at that moment, or no end |
| CompilerCorrectness.StoppedRunIsEvaluation | src/vm.c:1447-2190 | A run of generated code that stops stops as the evaluation of the tree says; so no stack underflow, stray jump or unknown opcode occurs |
| CompilerCorrectness.PlaceScript | src/compiler.c:277-291 | The bytes of a script decode, address by address, to the instructions of its tree, followed by OP_NIL and OP_RETURN |
| Simulation.RunExpr | src/vm.c:1552-2172 | From the address of an expression, the machine reaches its end with exactly its value pushed and the globals of its evaluation, or stops with the same error |
| Simulation.RunStmt | src/vm.c:1996-2157 | From the address of a statement, the machine does what its outcome says, with the stack back at its depth however the statement ends: normally, by break, by next |
| Simulation.RunBlock | src/vm.c:1996-2157 | The same for a sequence of statements, at any address and inside any loop |
| Simulation.RunArms | src/compiler.c:885-952 | An if/elsif/else chain runs exactly the block of the first true condition and leaves the chain with the condition popped on both paths |
| Simulation.RunWhile | src/compiler.c:954-987 | A while loop runs its body as long as its condition is true, for any number of rounds, with break and next |
| Simulation.RunUntil | src/compiler.c:989-1026 | An until loop runs its body as long as its condition is false, through the inverted conditional jump |
| Simulation.RunRound | src/compiler.c:1028-1053 | One round of a loop and all later ones: next goes back to the start, break leaves with the depth of the stack restored |
| Simulation.RunAnd | src/compiler.c:632-641 | and evaluates its right operand only when the left one is truthy and yields the deciding value, as the conditional jump over the operand does |
| Simulation.RunOr | src/compiler.c:643-655 | or evaluates its right operand only when the left one is falsy, through the pair of jumps that stand for a jump-if-true |
| Simulation.RunCall | src/vm.c:437-472 | A call of a native function or a native bound method evaluates callee and arguments left to right and replaces all of them by the result, or stops with the arity or type error or the error the native raised, with the globals as the native left them |
| Simulation.OpcodesMeanOperators | src/compiler.c:604-630 | The opcode chosen for each binary operator computes that operator, errors included; Operators says what that is |
| Boundaries.ScriptSegment | src/compiler.c:209-236 | In the code of every script each forward and backward jump lands on an instruction boundary of that code |
| Boundaries.RunStaysOnBoundaries | src/vm.c:2124-2157 | A run that starts on a boundary of code whose jumps land on boundaries stays on boundaries |
| Boundaries.ScriptStaysOnBoundaries | src/vm.c:2124-2157 | At every step of every run of a compiled script the instruction pointer is on an instruction boundary |
| Printing.ScriptRoundTrip | src/compiler.c:31-49 | Parsing the minimally parenthesised print of any script gives the same tree: left associativity of binary operators including **, right associativity of and/or, unary tighter than power; Precedence.PhraseReads fixes the order of the levels |
| Printing.ParsePrinted | src/compiler.c:845-868 | Read at any level not above the one it was printed for, the print of an expression gives that expression and leaves the infix loop at what follows |
| Printing.PrintingNormalises | src/compiler.c:1298-1319 | An accepted token sequence and the print of its tree parse to the same tree |
| Printing.ParsedScriptFits | src/compiler.c:1135-1183 | Whatever is accepted has break and next inside loops only, a guarded arm in every if, and at most 255 arguments in every call |
| Minimality.PrintIsShortest | src/compiler.c:845-868 | No token sequence that is read as an expression is shorter than the print of that expression, so no printed pair of parentheses can be left out |
| Minimality.PrecedenceTakes | src/compiler.c:845-868 | What is read at any level took at least as many tokens as its print at that level |
| Compiling.Compile | src/compiler.c:1298-1319 | For every token sequence whose chains keep the index of exit jumps below 256, the single pass that emits and patches bytes while it parses returns exactly the chunk of the two-pass specification, and an error exactly when the tokens do not parse or a jump, constant or break limit is exceeded; the tree is that of Precedence.PhraseReads, the bytes those of ScriptBytes |
| Compiling.PatchForward | src/compiler.c:216-226 | Writing the distance into the two operand bytes of an emitted jump gives the jump over what was emitted after it |
| Compiling.Compiler.PatchJump | src/compiler.c:216-226 | The two operand bytes receive the distance to the end of the code; an error is flagged exactly when it exceeds 65535 |
| Compiling.Compiler.EmitJump | src/compiler.c:209-214 | Appends the jump with operand 0xFFFF and returns the address of the operand |
| Compiling.Compiler.EmitLoop | src/compiler.c:228-236 | Appends the backward jump to the loop start; an error is flagged exactly when the distance exceeds 65535 |
| Compiling.Compiler.MakeConstant | src/compiler.c:238-245 | Appends the value to the pool; an error is flagged exactly when its index does not fit 16 bits |
| Compiling.Compiler.ParsePrecedence | src/compiler.c:845-868 | Either fails, exactly when the tokens do not parse at this level or break a limit, or appends exactly the code and constants of the parsed expression, whose tree Precedence.RowReads gives |
| Compiling.Compiler.NamedVariable | src/compiler.c:432-481 | A global read or, where assignment is allowed, an assignment whose name is pooled before its value is compiled |
| Compiling.Compiler.CompileAnd | src/compiler.c:632-641 | Emits jump, pop and right operand and patches the jump to the end |
| Compiling.Compiler.CompileOr | src/compiler.c:643-655 | Emits the two jumps, the first patched at once, the second after the right operand |
| Compiling.Compiler.Arguments | src/compiler.c:657-673 | Compiles and counts the arguments; the 256th is an error |
| Compiling.Compiler.IfStatement | src/compiler.c:885-952 | Emits the chain of conditions and blocks with every exit jump patched to its end, for chains whose exit jumps stay inside their array of 256 |
| Chains.ScriptInRangeIff | src/compiler.c:904-949 | While an accepted script is compiled, every index into the array of exit jumps stays below 256 if and only if no chain has more than 256 guarded arms |
| Chains.TooManyArms | src/compiler.c:904-949 | A script of one chain of n arms is within every other limit for all n up to 7281, but keeps the index in range only for n up to 256: 257 arms write behind the array |
| Compiling.Compiler.WhileStatement | src/compiler.c:954-987 | Emits condition, exit jump, body and backward jump, and patches the exit and every break of the body |
| Compiling.Compiler.UntilStatement | src/compiler.c:989-1026 | The same with the inverted condition |
| Compiling.Compiler.LoopStatement | src/compiler.c:1028-1053 | Emits the body and the backward jump and patches every break |
| Compiling.Compiler.BreakStatement | src/compiler.c:1135-1160 | Outside a loop an error; inside, an unpatched jump that is recorded unless 256 breaks are recorded already |
| Compiling.Compiler.NextStatement | src/compiler.c:1162-1183 | Outside a loop an error; inside, a backward jump to the start of the loop |
| Compiling.Compiler.Statement | src/compiler.c:1274-1294 | Every statement appends exactly its own code, constants and breaks, or fails exactly when it must |
| Compiling.Compiler.CompileGuardedBlock | src/compiler.c:911-936 | An arm of a chain after its condition: block, exit jump at its index, the skip over it, and the rest of the chain |
| Compiling.Compiler.CloseGuarded | src/compiler.c:975-984 | The backward jump of a conditional loop, its exit and its breaks patched to what follows; an error exactly when a distance exceeds 65535 |
| Compiling.Compiler.PatchBreaks | src/compiler.c:1044-1049 | Every recorded break of the current loop is patched to the end of the code |
| Machine.DecodeEncode | src/vm.c:1450-1458 | Reading an instruction and its little-endian operands at any address undoes writing it, whenever the operand fits its width |
| Machine.VM.Dispatch | src/vm.c:1552-2190 | One turn of the dispatch loop on an opcode of top-level scripts changes stack, globals, instruction pointer and outcome as one step of the machine |
| Machine.VM.Run | src/vm.c:1447-2190 | The dispatch loop on the opcodes of top-level scripts, stopped after a given number of instructions, is that many steps of the machine |
| Machine.VM.ExecuteOperator | src/vm.c:1595-1955 | Every handler that pops operands pushes the result of its operation, which Operators gives, or stops with its error |
| Machine.StepsFinal | src/vm.c:1447-1521 | A stopped configuration stays as it is |
| Precedence.PhraseReads | src/compiler.c:790-868 | Every phrase, with any parentheses, calls, signs and assignments, is read as its tree; the tree is split at the loosest operator of a literal list of eleven sets, or and and to the right, all others to the left |
| Precedence.RowReads | src/compiler.c:845-868 | A row of operands and operators of any length is read as that tree, at every level not above its loosest operator |
| Precedence.TwoOperators | src/compiler.c:807-830 | Of two operators the later one takes the middle operand if it is in a later set of the list, or both are or, or both and |
| Precedence.SplitIsUnique | src/compiler.c:845-868 | A row has one place to be split, so it has one reading |
| Operators.Arithmetic | src/vm.c:1593-1745 | Sum, difference, product and negation of integers are 48-bit integers that differ from the exact result by a multiple of 2^48 |
| Operators.RemainderMeans | src/vm.c:1686-1708 | a % b is a 48-bit r with a = q*b + r for some q, of smaller absolute value than b, and not of the other sign than a |
| Operators.IntegerOrder | src/vm.c:1877-1950 | The four relations on integers are those of the integers |
| Operators.StringOrder | src/vm.c:1877-1950 | The four relations on strings are the order of their bytes up to the first NUL: the first difference decides, and an end comes first |
| Operators.AndMeans | src/vm.c:1764-1774 | Bit k of a & b, below 48, is that of a and that of b |
| Operators.OrMeans | src/vm.c:1776-1786 | Bit k of a | b is that of a or that of b |
| Operators.XorMeans | src/vm.c:1788-1798 | Bit k of a ^ b is set if exactly one of the two is |
| Operators.ComplementMeans | src/vm.c:1800-1810 | Bit k of ~a is set if that of a is not |
| Operators.ShiftMeans | src/vm.c:1812-1838 | Shifting left moves bits up past zeros, shifting right moves them down below the sign, for counts from 0 to 63 |
| Operators.WordsDiffer | src/value.h:77-112 | 48-bit integers with the same 48 bits are equal, so these statements fix the results |
| Operators.Truth | src/value.h:134 | Everything but nil and false is true |
| Operators.SameOrNot | src/vm.c:1842-1874 | Without a float, two values are equal if they are of one kind and the same number, text or object |
| Operators.FloatOperators | src/vm.c:1593-1708 | With a float among two numbers the operation is that of doubles on both, and a zero divisor of % an error |
| Operators.DivisionAndPower | src/vm.c:1665-1731 | Division is always that of doubles, an error for zero; a power of integers is an integer if the exponent is not negative |
| Operators.Refused | src/vm.c:1593-1950 | Operands that do not fit an operator are refused with its own words; what fits succeeds, but for zero divisors and shift counts out of range |
| Operators.ShiftCounts | src/vm.c:1812-1838 | A shift of integers succeeds if and only if its count is from 0 to 63 |
| Operators.UnaryRefusedIff | src/vm.c:1733-1810 | Unary - refuses exactly what is no number, and ~ exactly what is no integer |
| Operators.Calls | src/vm.c:437-472 | A native function gets its arguments if they are as many as it wants or it wants any number; otherwise, and for what cannot be called, there is an error |
| ScriptValues.TreeValue | src/vm.c:1593-1745 | Every expression of integer literals with +, -, * and unary - evaluates to what boxed words make of it, or to a stack overflow exactly if it needs more than 65536 slots |
| ScriptValues.LineRuns | src/compiler.c:1298-1319 | A script that assigns such an expression, with whatever parentheses it is written, compiles, and its run leaves the exact value, wrapped once to 48 bits, in the global |
| ScriptValues.EveryExpressionRuns | src/compiler.c:1298-1319 | Every such expression has such a script |
| ScriptValues.UsualOrder | src/compiler.c:807-830 | Compiled and run, x = 2 + 3 * 4 leaves 14 and x = 10 - 4 - 3 leaves 3 |
| Programs.SumScript | src/compiler.c:954-987 | A while loop over tokens, compiled and run for any n below 2^47, leaves the sum of the numbers from 1 to n |
| Programs.UntilScript | src/compiler.c:989-1026 | An until loop runs its body as long as its condition is false, for any such n |
| Programs.LoopScript | src/compiler.c:1028-1053 | In an endless loop, break leaves it and what stands behind next is never run, for any such n |
| Programs.IfScript | src/compiler.c:885-952 | The first condition of an if, elsif and else that is neither nil nor false decides which block is run |
| Programs.LogicScript | src/compiler.c:632-655 | and gives its left operand if that is nil or false and its right one otherwise, or the other way round |
| Programs.CallScript | src/compiler.c:657-681 | A native function gets its arguments in their order |
| ScriptBytes.OperatorsCompile | src/compiler.c:604-630 | The bytes of a script with one binary operator, with the opcodes in the order of the enumeration of src/chunk.h |
| ScriptBytes.WhileCompiles | src/compiler.c:954-987 | Every byte and constant of the compiled while loop above |
| ScriptBytes.UntilCompiles | src/compiler.c:989-1026 | Every byte and constant of the compiled until loop |
| ScriptBytes.LoopCompiles | src/compiler.c:1028-1053 | Every byte and constant of the compiled endless loop with if, break and next |
| ScriptBytes.IfCompiles | src/compiler.c:885-952 | Every byte and constant of the compiled chain of if, elsif and else |
| ScriptBytes.LogicCompiles | src/compiler.c:632-655 | Every byte and constant of compiled and and or |
| ScriptBytes.CallCompiles | src/compiler.c:657-681 | Every byte and constant of a compiled call |
| ScriptBytes.SignsCompile | src/compiler.c:588-602 | The bytes of the three unary operators |
| ScriptBytes.LiteralsCompile | src/compiler.c:485-586 | nil, true and false have opcodes of their own, and every other literal is the constant it denotes |
| Limits.ConstantLimitIff | src/compiler.c:238-252 | A script of n constants compiles if and only if n is at most 65536 |
| Limits.ArmLimitIff | src/compiler.c:216-226 | A conditional block of n two-byte lines compiles if and only if n is at most 32765 |
| Limits.LoopLimitIff | src/compiler.c:228-236 | A loop of n two-byte lines compiles if and only if n is at most 32766 |
| Limits.BreakLimitIff | src/compiler.c:1135-1160 | A loop with n breaks compiles if and only if n is at most 256 |
| Limits.ArgumentLimitIff | src/compiler.c:657-673 | A call with n arguments is accepted if and only if n is at most 255 |
| Values.KindsAreDisjoint | src/value.h:26-63 | Every 64-bit word passes exactly one of the float, int, pointer, bool, nil and undefined tests or lies in unused tag space |
| Values.UnboxBox | src/value.h:77-112 | Boxing any 64-bit integer and unboxing it wraps it to 48-bit two's complement; it is lossless exactly on the signed 48-bit range |
| Values.UnboxBoxPointer | src/value.h:86-119 | 16-byte aligned 47-bit addresses survive boxing and are never mistaken for integers |
| Values.BoxedArithmetic | src/vm.c:1595-1665 | Any nest of +, -, * and negation on boxed integers unboxes to the exact result wrapped once to 48 bits, while products of unboxed operands fit 64 bits |
| Bytes.U16RoundTrip | src/compiler.c:199-202 | A 16-bit little-endian operand is read back modulo 65536 |
| Bytes.U32RoundTrip | src/vebc_writer.c:13-18 | A 32-bit little-endian field is read back unchanged |
| Upvalues.UpvaluesAreCells | src/vm.c:378-414 | Over every disciplined run, one in which OP_POP drops no captured slot, the machine with stack-resident upvalues and the semantics with one heap cell per captured variable both stop or both end with the same values on the stack and behind every upvalue of every closure; the open list is strictly descending with one upvalue per slot |
| Upvalues.RunInStep | src/vm.c:2086-2219 | From any two states in step, every such run keeps them in step |
| Upvalues.StepInStep | src/vm.c:2086-2219 | One instruction keeps the machines in step, and one stops exactly when the other does |
| Upvalues.CaptureMeaning | src/vm.c:378-405 | Capturing a slot returns the open upvalue of that slot, creates one only if there is none, keeps the list in order and changes nothing else |
| Upvalues.CaptureTwice | src/vm.c:378-405 | Two captures of one slot give the same upvalue, and the second changes nothing |
| Upvalues.OneUpvaluePerSlot | src/vm.c:378-405 | In an ordered list no slot has two open upvalues |
| Upvalues.CloseMeaning | src/vm.c:407-414 | close_upvalues(last) closes exactly the open upvalues at or above last, each with the value of its slot, and leaves exactly the others open, in order |
| Upvalues.CaptureInStep | src/vm.c:378-405 | Capturing a slot on the stack machine is making or finding its heap cell, with the same number |
| Upvalues.DropInStep | src/vm.c:2111-2117 | Closing everything from a slot up and dropping those slots keeps every later read through a closure the same |
| Upvalues.ReturnInStep | src/vm.c:2175-2190 | A return closes the upvalues of the frame, drops the frame and pushes the result, in step with the heap cells |
| Upvalues.MakeClosureInStep | src/vm.c:2195-2219 | OP_CLOSURE fills the upvalues of a new closure with the same cells on both sides |
| Upvalues.PopKeepsListIff | src/vm.c:1996-2000 | OP_POP keeps the open list about live slots if and only if the popped slot is not captured |
| Upvalues.CapturedPopDiverges | src/vm.c:1996-2000 | After OP_POP of a captured slot, in every state, its closures read whatever is pushed next while the heap-cell semantics still holds the variable |
| UpvalueLaws.Locals | src/vm.c:419-472 | After a call, local 0 is the called closure and local i its argument i |
| UpvalueLaws.BadCalls | src/vm.c:419-472 | A call goes through if and only if the callee is a closure that takes that many arguments and there are fewer than 256 frames |
| UpvalueLaws.Returned | src/vm.c:2173-2190 | A return replaces the closure and its arguments by the result |
| UpvalueLaws.BothCapture | src/vm.c:378-405 | Two closures that capture one variable share its one open upvalue |
| UpvalueLaws.WriteOpen | src/vm.c:2098-2107 | Writing the upvalue of one of them writes the variable on the stack |
| UpvalueLaws.ReadOpen | src/vm.c:2087-2096 | And the other one then reads what was written |
| UpvalueLaws.CloseShared | src/vm.c:407-414 | When the variable leaves the stack, its value is kept in the one upvalue of both |
| UpvalueLaws.SharedClosed | src/vm.c:2087-2107 | What one of them writes there the other one reads |
| Scopes.ScopeIsDisciplined | src/compiler.c:299-311 | After any run of a scope in which closures capture marked locals only, calls included, the code that end_scope emits drops no captured local, drops exactly the locals of the scope, and every closure keeps their values |
| Scopes.ExitIff | src/compiler.c:299-311 | The code at the end of a scope is disciplined if and only if every captured local is marked |
| Scopes.StepCaptures | src/vm.c:2194-2219 | No instruction captures a slot except OP_CLOSURE, and that only the slots its local descriptors name |
| Scopes.ResolveKeepsMarks | src/compiler.c:359-374 | Resolving a name keeps every local marked that a descriptor of an inner function names, at every level of the nest |
| Scopes.ClosureCapturesMarked | src/compiler.c:1222-1237 | A closure made from the descriptors of an inner function captures only locals that the compiler has marked |
| Upvalues.StepKeepsList | src/vm.c:378-414 | Every instruction other than such a pop keeps the list strictly descending over live slots |
| Upvalues.StepKeepsRefs | src/vm.c:2195-2219 | Every instruction keeps all upvalue references of all closures within the upvalues that exist |
| OpenUpvalues.VM.CaptureUpvalue | src/vm.c:378-405 | The linked-list walk and insertion, on objects with next pointers, does what the list semantics says |
| OpenUpvalues.VM.CloseUpvalues | src/vm.c:407-414 | The loop that unlinks from the head moves each value into its upvalue and leaves the list the semantics says |
| OpenUpvalues.VM.Walk | src/vm.c:378-386 | The walk stops at the neighbours between which the slot belongs |
| OpenUpvalues.VM.Link | src/vm.c:388-404 | One pointer changes: the head or the next field of the predecessor |
| OpenUpvalues.VM.Execute | src/vm.c:2086-2219 | Every instruction on the object machine is the instruction of the list semantics |
| OpenUpvalues.VM.ExecuteClosure | src/vm.c:2195-2219 | The closure is pushed before its upvalues are filled, and each is captured or copied as its descriptor says |
| OpenUpvalues.VM.ExecuteReturn | src/vm.c:2175-2190 | The ordinary return path: close, drop the frame to its base, push the result |
| OpenUpvalues.LinkInserted | src/vm.c:388-404 | Linking a node in at its place changes one link and makes the list with that entry inserted |
| Resolution.ResolvedUpvalueIsNearestCell | src/compiler.c:359-374 | For any nest of functions and any name for which there is room: in every run-time nest built from the descriptors or from later ones, the upvalue at the returned index is the cell of the nearest enclosing local with that name |
| Resolution.ResolvesIffBound | src/compiler.c:359-374 | -1 is returned exactly when no enclosing function has a local with the name |
| Resolution.ResolveExtendsIff | src/compiler.c:338-374 | Resolving a name keeps the descriptors already issued, at every level of the nest, if and only if each level that needs an upvalue has it or has fewer than 255 |
| Resolution.ResolveAgain | src/compiler.c:338-374 | Resolving the same name again returns the same index and adds nothing at any level |
| Resolution.AddKeepsIff | src/compiler.c:338-357 | Looking up or adding a descriptor keeps those already issued, with a valid index for it, if and only if it was there or fewer than 255 were; otherwise the byte count wraps to 0, so the test for too many never fires |
| Resolution.AddKeepsNoDuplicates | src/compiler.c:338-357 | No descriptor is issued twice, so equal captures share an index |
| Resolution.LastCaptureLosesAll | src/compiler.c:338-374 | Three nested functions, the middle one with 255 locals: after those have been captured, capturing one more of the outermost reports no error and leaves the innermost function with no upvalues |
| Resolution.ClosureIsBuilt | src/vm.c:2195-2219 | The closure OP_CLOSURE makes denotes, upvalue by upvalue, what its descriptors say about the running function |
| ClosureHistory.EveryClosureIsBuilt | src/vm.c:2194-2219 | After every disciplined run of a script, every closure it has made is built from its descriptors and the activation that made it, level by level out to the script |
| ClosureHistory.NamesFollowCells | src/compiler.c:359-374 | In every disciplined run, the upvalue that a closure reads for a name is the cell of the nearest enclosing variable with that name |
| Resolution.LocalMeaning | src/compiler.c:325-336 | resolve_local returns the last local with the name, or -1 exactly when there is none |
| FunctionCompilers.FnCompiler.ResolveUpvalue | src/compiler.c:359-374 | The recursion over enclosing compilers, which marks locals captured and adds descriptors on its way back, does what the specification of resolution says |
| FunctionCompilers.FnCompiler.AddUpvalue | src/compiler.c:338-357 | The loop over the descriptors and the addition with a byte count do what the specification says |
| FunctionCompilers.FnCompiler.ResolveLocal | src/compiler.c:325-336 | The downward loop finds the last local with the name; a variable read in its own initialiser is an error |
| Collecting.Heap.Collect | src/gc.c:224-243 | From any heap in order: the tracked array becomes the old one filtered, in order, to exactly the objects reachable from pins, C roots, stack, frames, globals and open upvalues; exactly the others are freed; marks are clear; exactly the reachable objects were gray, once each; the intern table keeps exactly the surviving strings; no field and no root names what was freed |
| Collecting.Heap.MarkPhase | src/gc.c:92-202 | The mark bits afterwards are exactly the reachable objects and the gray stack is empty |
| Collecting.Heap.MarkRoots | src/gc.c:189-202 | Marks what the pins, the C roots and the machine refer to, in the order of the source |
| Collecting.Heap.TraceObject | src/gc.c:112-178 | Marks the references of an object as its kind has them, which References.ChildrenAreMentioned gives field by field |
| Collecting.Heap.TraceReferences | src/gc.c:181-186 | The worklist loop ends, by the number of unmarked objects plus the height of the gray stack, with nothing gray |
| Collecting.Heap.MarkObject | src/gc.c:92-109 | Marks and pushes an object at most once |
| Collecting.Heap.Sweep | src/gc.c:205-221 | Compacts the tracked array in place to its marked objects, in order, frees the others and clears every mark |
| Collecting.Heap.TrackObject | src/gc.c:62-73 | Appends to the tracked array, doubling it when it is full |
| Collecting.Heap.NewString | src/object.c:137-156 | Returns the one live string with these bytes, made and interned if there is none; the heap stays in order |
| Collecting.Heap.NewObject | src/object.c:124-134 | A new object that refers to live objects is tracked, and the heap stays in order |
| Collecting.Heap.Update | src/object.c:173-182 | Any change of a live object other than a string keeps the heap in order |
| Collecting.Heap.SetRoots | src/vm.c:151-173 | Any other choice of live roots keeps the heap in order |
| Collecting.CollectKeepsHeapOk | src/gc.c:224-243 | Dropping exactly the unreachable objects, and their strings from the intern table, keeps the heap in order: nothing live refers to anything freed |
| Collecting.StringsAreCanonical | src/object.c:137-156 | Two live strings with equal bytes are the same object, in every heap in order |
| Tracing.TraceStepKeeps | src/gc.c:181-186 | One step of the trace keeps the mark invariant and uses up one unit of unmarked objects plus gray stack |
| Tracing.MarkedIsReachable | src/gc.c:181-202 | When nothing is gray or pending, an object is marked exactly when it is reachable from the roots |
| Tracing.MarkAllPending | src/gc.c:85-109 | Marking pending references keeps the mark invariant |
| References.ChildrenAreMentioned | src/gc.c:112-177 | The tracer follows object b from an object if and only if some field of it is b: the name or a constant of a function, an element, the key or value of an entry in use, the function or an upvalue of a closure, a closed value, a receiver |
| References.RootsAreMentioned | src/gc.c:189-202 | The mark phase starts from an object if and only if it is pinned, held by C code, on the stack, the closure of a frame, the globals, or an open upvalue |
| References.ReachableIsAlive | src/gc.c:181-202 | What the mark phase takes for reachable is what a chain of such fields leads to from such a root |
| Collecting.CollectedSurvive | src/gc.c:205-221 | A collection leaves exactly the tracked objects and the strings to which such a chain leads, in their order, and frees exactly the other objects |
| Collecting.Heap.ValidNamesLiveOnly | src/gc.c:224-247 | Between collections no field of a tracked object and no root names an object that is freed or not tracked |
| Probing.TerminatesIff | src/object.c:225-309 | The probe loop for a key ends exactly when some slot is NULL or the key is in the table |
| Probing.EmptyMeansAbsent | src/object.c:262-282 | Reaching a NULL slot on the probe path proves that the key is absent |
| Probing.PlaceNew | src/object.c:236-258 | Placing a new entry in a free slot that its probe reaches adds exactly this entry to the map and breaks no probe path |
| Probing.Overwrite | src/object.c:251-256 | A new value for a stored key changes exactly that key |
| Probing.Erase | src/object.c:286-309 | A tombstone in place of an entry removes exactly its key and breaks no probe path |
| Probing.RoomIsEmptySlot | src/object.c:227-229 | A table without tombstones that is not full of entries has a NULL slot |
| Probing.RepresentsOnce | src/object.c:225-309 | A table stands for one finite map only |
| Rehashing.Rehash | src/object.c:200-222 | Every entry is placed in the new array, which then stands for the same map, without tombstones |
| Rehashing.Move | src/object.c:208-216 | One entry goes to the first NULL slot of its probe in the new array |
| ObjMaps.ObjMap.Get | src/object.c:262-282 | The lookup is that of the finite map, whenever the probe ends |
| ObjMaps.ObjMap.Set | src/object.c:225-259 | The table stands for the map with the key set; the result says whether the key was new; length counts the live entries; growth happens by the load of live entries only |
| ObjMaps.ObjMap.Put | src/object.c:231-258 | The probe loop of set: the key's own entry, else the first tombstone passed, else the NULL slot |
| ObjMaps.ObjMap.Delete | src/object.c:286-309 | The table stands for the map without the key, and the result says whether it was there |
| ObjMaps.ObjMap.Grow | src/object.c:200-222 | The entries move to an array of twice the size with a NULL slot and no tombstones, standing for the same map |
| ObjMaps.InsertOnlyStops | src/object.c:225-259 | A map without tombstones always has a NULL slot, so histories without delete always end their probes |
| ObjMaps.FillWithTombstones | src/object.c:225-309 | Eight insertions and deletions of one-letter strings leave a map that is not grown and in which no lookup of any key ends |
| Interning.InternTable.Find | src/object.c:47-67 | Returns the string object with these bytes exactly if the table has one |
| Interning.InternTable.Insert | src/object.c:95-107 | Adds exactly this string, growing first when three quarters of the slots would be in use |
| Interning.InternTable.Grow | src/object.c:70-92 | Doubles the table, which stands for the same strings, without tombstones |
| Interning.InternTable.RemoveUnmarked | src/object.c:111-119 | Keeps exactly the strings whose objects are marked, each still found by probing |
| Interning.HashString | src/object.c:37-44 | The loop computes the 32-bit FNV-1a hash of the bytes |
| Interning.HashOfFoobar | src/object.c:37-44 | The hash of foobar is the published FNV-1a value BF9CF968 |
| ObjMaps.LettersCoverTable | src/object.c:37-44 | The FNV-1a hashes of eight one-letter strings have all residues modulo 8 |
| Interning.SomeFree | src/object.c:95-107 | The growth test leaves a slot without an entry, so insertion always ends |
| InternTombstones.FillWithTombstones | src/object.c:95-121 | 64 strings, each dropped by a collection before the next one comes, leave an intern table that is not grown and in which no lookup of a missing string ends |
| JsonText.DecodeEncode | src/stdlib_json.c:353-364 | Decoding the encoding of any float-free tree of nil, bools, 48-bit integers, byte strings, lists and maps gives an equal value and consumes exactly that text |
| JsonTrailing.ValueIsFrontIff | src/stdlib_json.c:327-364 | The first k bytes are what is read if and only if they are a value by themselves that is not a number which the next byte goes on with |
| JsonTrailing.AcceptedIff | src/stdlib_json.c:353-364 | json.decode accepts what is no value of this parser with blanks if and only if such a value stands at the front with something other than blanks behind it |
| JsonTrailing.ValueLocal | src/stdlib_json.c:252-351 | A value in front of some text is the same value in front of any other text, unless it is a number and the text begins differently |
| JsonTrailing.TrailingTextIsIgnored | src/stdlib_json.c:353-364 | Whatever is written behind a value that is not a number, the value is decoded |
| JsonTrailing.NullIff | src/stdlib_json.c:353-364 | The result is nil exactly for a failure or an input that starts with the word null |
| JsonGrammar.JsonTextIff | src/stdlib_json.c:121-351 | An input is a JSON text of RFC 8259, sections 2 to 7, if and only if it is accepted, every number and every character of the tree read is of the form the standard has, and only blanks are left; every JSON text is accepted |
| JsonGrammar.AcceptedBeyondIff | src/stdlib_json.c:121-364 | An input is accepted although it is no JSON text if and only if it is a value of the loose grammar and a rest, where some number has missing digits or a leading zero, or some character is a raw control byte or an unknown escape, or the rest is not blank |
| JsonGrammar.AcceptedIff | src/stdlib_json.c:121-364 | The parser accepts exactly what is blanks, a value of the loose grammar and a rest, and there is one way only to take an input apart so |
| JsonGrammar.ValueReadBack | src/stdlib_json.c:252-351 | Every value of the loose grammar is read back as its tree from its text |
| JsonGrammar.ValueWritten | src/stdlib_json.c:252-351 | Whatever is read is the text of its tree |
| JsonGrammar.SameValue | src/stdlib_json.c:252-351 | A tree is read exactly where the parser succeeds, and leaves the same rest |
| JsonGrammar.AcceptedExamples | src/stdlib_json.c:156-250 | A lone minus, 01, 1., an unknown escape and a raw control byte are accepted to their end and are no JSON texts |
| JsonMeaning.ValueParsed | src/stdlib_json.c:326-351 | Whatever is accepted, the parser returns what the tree that is read means: characters by their letters and code points, integers by their digits, items in order, and of equal names the last value |
| JsonMeaning.JsonTextMeans | src/stdlib_json.c:353-366 | Every JSON text is decoded to its meaning |
| JsonMeaning.CharsMeanOnce | src/stdlib_json.c:156-216 | A string has one meaning |
| JsonMeaning.NumberParsed | src/stdlib_json.c:218-250 | An integer is what its digits write, place by place, nearest in 64 bits and then wrapped to 48, within the 63 bytes that are copied; with fraction or exponent the text is what strtod reads |
| JsonMeaning.EAcute | src/stdlib_json.c:182-206 | The escape u00e9 means the bytes C3 A9 and no others |
| JsonMeaning.StandardIff | src/stdlib_json.c:182-206 | A string is read as section 7 of RFC 8259 has it if and only if it has no surrogate escape; a pair of them is taken for two characters |
| JsonMeaning.EncodeWritesMeaning | src/stdlib_json.c:20-111 | What is encoded is a JSON text, strict in every number and character, and its tree means the value |
| Utf8Text.EscapeShows | src/stdlib_json.c:194-204 | The bytes written for an escape, read by the lead and continuation ranges of RFC 3629, are the shortest form of its code point; a surrogate gets the three bytes it would have |
| Utf8Text.ShownOnce | src/stdlib_json.c:194-204 | No two byte sequences show the same code point |
| JsonText.ValueRoundTrip | src/stdlib_json.c:51-101 | The same in front of any text that does not continue a number |
| JsonText.StringRoundTrip | src/stdlib_json.c:27-49 | Every byte string is read back from its JSON string, with every escape and every \u00XX control byte |
| JsonText.NumberRoundTrip | src/stdlib_json.c:218-250 | Every 48-bit integer is read back from its decimal text, within the 63 bytes the parser copies |
| JsonText.MembersRoundTrip | src/stdlib_json.c:283-324 | The entries of a map with different keys are read back in order |
| JsonText.ItemsRoundTrip | src/stdlib_json.c:252-281 | The items of a list are read back in order |
| JsonText.ParseEscaped | src/stdlib_json.c:156-216 | Every escape the encoder writes is read back as its byte |
| JsonCodec.EncodeTo | src/stdlib_json.c:51-101 | The recursive encoder appends exactly the JSON of the value to the growing buffer |
| JsonCodec.EncodeStringTo | src/stdlib_json.c:27-49 | Appends exactly the quoted and escaped string |
| JsonCodec.EncodeMapTo | src/stdlib_json.c:83-97 | Appends the entries in table order with commas between them |
| JsonCodec.JsonParser.ParseValue | src/stdlib_json.c:326-351 | The parser with a moving position succeeds exactly when the grammar does, with the same value and the same rest |
| JsonCodec.JsonParser.ParseObject | src/stdlib_json.c:283-324 | A later entry with the same key replaces the earlier one, as obj_map_set does |
| JsonCodec.JsonParser.ParseArray | src/stdlib_json.c:252-281 | Items separated by commas up to the closing bracket, or failure |
| JsonCodec.JsonParser.ParseString | src/stdlib_json.c:156-216 | Bytes and escapes up to the closing quote, or failure |
| JsonCodec.JsonParser.ParseNumber | src/stdlib_json.c:218-250 | An integer or, with fraction or exponent, a float; no number text is a failure |
| JsonCodec.JsonParser.UnicodeEscape | src/stdlib_json.c:182-206 | Four hexadecimal digits become the UTF-8 bytes of the code point, by Utf8Text.EscapeShows |
| JsonCodec.Decode | src/stdlib_json.c:353-364 | native_json_decode on a string: the value at its front, which by JsonMeaning.ValueParsed is its meaning, or nil |
| Buffers.Buffer.Append | src/stdlib_json.c:13-21 | The text grows by exactly the appended bytes, a NUL stays behind it, and the capacity doubles from 64 as needed |
| Router.Router.Match | src/router.c:111-177 | For every set of registered routes and every path: a match is returned exactly if some route matches it segment by segment, and then the one that comes first with literals before parameters and earlier before later parameters; its handler is the last one registered for this pattern and method; the captured parameters are exactly its segments in order, and none without a match |
| Router.Router.MatchRecursive | src/router.c:111-170 | Below any node, the preferred candidate is found with its parameters appended; failure restores the parameter count |
| Router.Router.MatchLiterals | src/router.c:134-145 | The literal children are tried first, each failed try restoring the count |
| Router.Router.MatchParams | src/router.c:147-169 | The parameter children are tried in insertion order within the limit of 16 parameters |
| Router.Router.Add | src/router.c:70-108 | A route is registered under the pattern that its path leads to, with its prefixes made known, if and only if its method is known and no full node lies on its way; otherwise nothing changes |
| Router.Router.FindOrCreateChild | src/router.c:46-68 | The first child with the text of a segment, or a new one, cut to 127 bytes; nothing if and only if there is none and the node has 32 children |
| Router.Router.AddAll | src/router.c:70-108 | Adding a list of routes in order is adding them one by one; when their segments fit, all with a known method are registered if and only if the list is within the limits, at most 32 different segments behind every common prefix, and then the order of preference is that of the list |
| Routes.ListDecides | src/router.c:111-170 | What a router that knows a list prefers is what comes first in the list: where two fitting routes first differ, the literal, or else the one whose beginning some route of the list has first |
| Routes.KnownOrder | src/router.c:46-68 | Of two beginnings of the same length the one that some route has first is known first |
| Routes.WalkOfFitting | src/router.c:70-108 | As long as nothing has been cut, a path whose segments fit is registered under just these segments |
| Routes.OwnPathIff | src/router.c:11-18 | A route matches the path it was registered with if and only if no literal segment of it is longer than 127 bytes |
| Routes.NeverBlocked | src/router.c:46-68 | Within the limits no route of a list meets a full node, whichever of them were added before |
| Routes.CandidateBelow | src/router.c:111-170 | A pattern that matches below a node matches below exactly one of its children |
| Routes.BestAbove | src/router.c:111-170 | The best match below a child is the best below its parent when every other child with a match comes later |
| Routes.HandlerExists | src/router.c:104-107 | A pattern has a handler for a method exactly if some route was registered with both |
| RoutePaths.SplitWritten | src/router.c:73-105 | A path written as segments behind slashes splits into these segments, with a slash at its end or without |
| RoutePaths.PatternRead | src/router.c:85-98 | A written route is read as its parts: a colon makes a parameter with the rest as its name, everything else is literal |
| RoutePaths.FitsIff | src/router.c:111-170 | A written route fits a written path if and only if the method is the same, the parts are as many as the segments, each fixed part is the segment in its place, and there are at most 16 parameters |
| RoutePaths.CapturedAt | src/router.c:143-158 | Each parameter is captured with the segment in its place, in the order of their places |
| RoutePaths.FirstDifference | src/router.c:130-168 | The first difference of two patterns decides: a literal before a parameter, otherwise the one some route of the list has first |
| RoutePaths.FixedWins | src/router.c:130-168 | Of two routes that both fit, the one with the fixed segment where they first differ is taken, whichever was added first |
| Http.ArrivalDoesNotMatter | src/http_parser.c:70-226 | However the bytes of a stream arrive, the answer at the first moment that has one is the answer for the whole stream and at every later moment |
| Http.ResultIsStable | src/http_parser.c:70-226 | An error stays an error, and a request stays the same request with the same length, whatever follows |
| Http.PrefixIsIncomplete | src/http_parser.c:70-226 | No proper prefix of the bytes of a request is a request or an error |
| Http.RequestDelimitsItself | src/http_parser.c:70-226 | The consumed bytes parse by themselves to the same request |
| Http.SameParsedHead | src/http_parser.c:87-167 | Request line and headers depend only on the bytes up to the end of the head |
| ContentLength.LengthMeaning | src/http_parser.c:175-187 | A Content-Length text is read as the number its digits write, modulo 2^64; other bytes are skipped |
| ContentLength.NumberReadIff | src/http_parser.c:175-187 | A text of digits is read as its number if and only if that is below 2^64 |
| ContentLength.FieldReadIff | src/http_parser.c:175-187 | A field whose list elements all say n is read as n if and only if it is one element and n is below 2^64, or n is 0, or what the other elements add is lost modulo 2^64 |
| HttpFraming.FramingOfFields | src/http_parser.c:172-208 | The framing of a request is the last Content-Length, 0 without one, and an error if any is above the limit |
| HttpFraming.FramedByStandardIff | src/http_parser.c:172-208 | What is done about the length is what sections 6.1 to 6.3 of RFC 9112 demand if and only if: with a Transfer-Encoding field, with a field name that is none or with fields that are no one number, some field is above the limit so that the request is refused; otherwise no field is above the limit and the last one is read right, or the number is above it and the request is refused |
| HttpFraming.OneNumberIff | src/http_parser.c:172-208 | With no Transfer-Encoding and every Content-Length the same single number, that is if and only if the number is below 2^64 or wraps around to more than the limit |
| HttpFraming.RequestTakes | src/http_parser.c:172-222 | Every request with a complete head is refused, exactly if the digits of some Content-Length make more than the limit modulo 2^64, or takes what those of the last one say |
| HttpFraming.RequestFramedByStandard | src/http_parser.c:210-222 | A request framed by the standard takes exactly its length behind the head as its body and waits for it; it is refused when it is coded, invalid or too large |
| HttpFraming.RequestFramedOtherwise | src/http_parser.c:210-222 | Any other request takes bytes although it is coded or invalid, or takes another number of bytes than its length, or is refused although its length is within the limit |
| HttpFraming.CodedRequest | src/http_parser.c:210-222 | A request with a Transfer-Encoding and no Content-Length has no body, whatever follows its head |
| HttpFraming.ChunkedRequest | src/http_parser.c:132-222 | A whole chunked request is taken as its head alone; its chunks are left as the beginning of the next request |
| HttpFraming.CodedWithLength | src/http_parser.c:172-187 | With both fields the Content-Length is taken, where the Transfer-Encoding decides |
| HttpFraming.NumberFramesRequest | src/http_parser.c:132-222 | A request with one Content-Length of digits, for every such text up to the limit and every body, has exactly that many bytes as its body |
| HttpFraming.NotByStandard | src/http_parser.c:175-187 | 18446744073709551621 is taken as 5, 1x0 as 10, -5 as 5, the list 5, 5 as 55, and of two different fields the last |
| HttpFraming.TrailingBlankIsFramed | src/http_parser.c:155-163 | A Content-Length with a blank behind its number is framed as the standard has it |
| HttpFraming.WrappingFramesRequest | src/http_parser.c:132-222 | A whole request with that wrapping length takes five bytes as its body |
| HttpFields.WrittenIsParsed | src/http_parser.c:69-227 | A written request is refused, waits, or is parsed as written: the method by the list of seven words, path, query or none, version digits, names and values in order, keep-alive by the last matching Connection or the version, the body its last Content-Length asks for |
| HttpFields.AcceptedIff | src/http_parser.c:86-156 | A complete head is accepted if and only if it is written in this way, with at most 64 fields |
| HttpParser.HttpRequest.Parse | src/http_parser.c:70-226 | The parser that fills the fields returns the code, the fields and the consumed length of the specification, which by HttpFields.WrittenIsParsed are those that were written |
| HttpParser.HttpRequest.RequestLine | src/http_parser.c:90-130 | Method, path, query and version of the request line, as HttpFields.WrittenIsParsed has them, or an error |
| HttpParser.HttpRequest.HeaderLines | src/http_parser.c:132-167 | Up to 64 headers as name and value without leading blanks, or an error |
| HttpParser.HttpRequest.ReadFraming | src/http_parser.c:172-208 | The loop over the headers computes the framing of HttpFraming.FramingOfFields: the last Content-Length decides the body; one above the limit is an error; keep-alive by version and Connection |
| HttpParser.StaysTooLarge | src/http_parser.c:173-187 | A length that was too large once makes the request an error |
| Crc32.Compute | src/stdlib_compress.c:23-30 | For every message the table-driven CRC32 is the bit-by-bit polynomial division of section 8 of RFC 1952 |
| Crc32.TableStep | src/stdlib_compress.c:25-28 | One table lookup is the division by eight message bits |
| Crc32.InitTable | src/stdlib_compress.c:10-21 | Every entry of the table is eight steps of the division from its index |
| Crc32.ShiftsEight | src/stdlib_compress.c:12-19 | Eight steps send only the low byte through the division and shift the others |
| Crc32.AddAllThenShift | src/stdlib_compress.c:25-28 | Adding message bits one at a time is adding them all and then shifting |
| Crc32.PolynomialIs | src/stdlib_compress.c:10-21 | The constant is the polynomial of CRC-32, term by term in reflected order |
| Crc32.CheckValue | src/stdlib_compress.c:23-30 | The checksum of the characters 1 to 9 is CBF43926 |
| Deflate.InflateUndoesDeflate | src/stdlib_compress.c:36-129 | Inflating stored blocks returns the input for every length, from room of exactly its size, whatever follows the last block (section 3.2.4 of RFC 1951) |
| Deflate.GunzipUndoesGzip | src/stdlib_compress.c:168-270 | gunzip undoes gzip on every byte string (section 2.3 of RFC 1952) |
| Deflate.SizeIsExact | src/stdlib_compress.c:36-44 | The size computed in advance is the size written |
| Deflate.ExtractedFits | src/stdlib_compress.c:83-129 | For every input, well formed or not, what the second pass extracts fits the room found by the first |
| Deflate.NineDigits | src/stdlib_compress.c:180-222 | Every byte of the gzip file of these nine characters |
| Deflate.Compress | src/stdlib_compress.c:36-79 | The block loop fills a buffer of the precomputed size with exactly the stored blocks |
| Deflate.Decompress | src/stdlib_compress.c:83-129 | The two passes extract what the specification of inflate says, within the buffer |
| Deflate.FirstPass | src/stdlib_compress.c:84-101 | The first pass finds the total of the block lengths |
| Deflate.GunzipBytes | src/stdlib_compress.c:220-270 | gunzip with its moving position past the optional fields returns what the specification says |
| Deflate.GzipBytes | src/stdlib_compress.c:168-216 | gzip fills one buffer with header, blocks and trailer |
| DeflateFormat.InflateByStandardIff | src/stdlib_compress.c:83-129 | inflate reads alike whatever section 3.2.4 of RFC 1951 accepts as stored blocks, and the standard accepts exactly the inputs that are their own repair |
| DeflateFormat.InflateReadsRepaired | src/stdlib_compress.c:83-129 | inflate reads every byte string as the standard reads it with block types, NLEN and a missing last block put right |
| DeflateFormat.StandardIff | src/stdlib_compress.c:83-129 | The standard accepts a byte string if and only if its repair changes nothing |
| DeflateFormat.DeflateWritesStream | src/stdlib_compress.c:36-79 | What deflate writes is a stream of stored blocks of the standard that ends where it ends |
| DeflateFormat.OneByteBlock | src/stdlib_compress.c:110-125 | A block of one byte is inflated for every block type and every NLEN; the standard accepts it for one of each |
| GzipFormat.AcceptedIff | src/stdlib_compress.c:220-270 | gunzip accepts exactly the byte strings that are a header with any optional fields, any body and eight bytes |
| GzipFormat.GunzipReads | src/stdlib_compress.c:220-270 | For every header of section 2.3 of RFC 1952 the body behind it is inflated |
| GzipFormat.SplitIsUnique | src/stdlib_compress.c:220-270 | There is one way only to take a file apart |
| GzipFormat.MembersAreRead | src/stdlib_compress.c:220-270 | Every gzip file of one member of stored blocks is read as its data |
| GzipFormat.GunzipByStandardIff | src/stdlib_compress.c:220-270 | What is accepted is such a file if and only if reserved flags, header checksum, blocks and trailer conform |
| GzipFormat.TrailerIsNotChecked | src/stdlib_compress.c:220-270 | With any eight bytes as the trailer a file of gzip is read as its data; the standard accepts one choice |
| GzipFormat.GzipWritesMember | src/stdlib_compress.c:168-216 | What gzip writes is a file of the standard that holds the data |
| GzipFormat.ExtraCheckIff | src/stdlib_compress.c:237-242 | The check of the extra field fails exactly below 12 bytes, so never on the 18 bytes that are demanded first; an incomplete field is refused by the last test |
| Markdown.RenderIsWellNested | src/stdlib_markdown.c:169-330 | For every source text the angle brackets of the output pair up one by one into the emitted tags, and the tags are closed innermost first with nothing left open |
| Markdown.LineStepIsNested | src/stdlib_markdown.c:190-319 | Every line keeps at most one of code block, ul, ol and blockquote open, and its tags lead from the elements open before it to those open after it |
| Markdown.LinesAreNested | src/stdlib_markdown.c:190-325 | From any point of the source to the end, what is open there and all that is opened later is closed |
| Markdown.InlineIsNeutral | src/stdlib_markdown.c:59-146 | Inline formatting of any text closes everything it opens, whatever is open around it |
| Markdown.LinkIsNeutral | src/stdlib_markdown.c:110-134 | A link with any text and address is one a element whose address has no quote and no angle bracket to leave its attribute or its tag with |
| Markdown.EscapedIsClean | src/stdlib_markdown.c:43-55 | Escaped text has no angle bracket and no double quote |
| Markdown.TagsOfFlatten | src/stdlib_markdown.c:26-39 | When text and tags hold no angle brackets, the tags read from the output are exactly those emitted, in order |
| Markdown.CloseListsChanges | src/stdlib_markdown.c:203-205 | Closing whichever list is open leaves nothing open |
| MarkdownRendering.RenderDocument | src/stdlib_markdown.c:169-330 | The renderer with its buffer, scans and flags returns the HTML of the specification, hence well nested |
| MarkdownRendering.RenderLine | src/stdlib_markdown.c:190-319 | One turn of the line loop appends the pieces of that line and sets the flags as specified |
| MarkdownRendering.RenderInline | src/stdlib_markdown.c:59-146 | The inline loop appends exactly the pieces of the text |
| MarkdownRendering.InlineStep | src/stdlib_markdown.c:61-144 | One turn finds bold, italic, code or link at the position, or escapes one byte |
| MarkdownRendering.EscapeAppend | src/stdlib_markdown.c:43-55 | Appends exactly the escaped text |
| MarkdownRendering.IsRuleLine | src/stdlib_markdown.c:150-165 | True exactly for three or more of one of - * _ and spaces |
| MarkdownRendering.MdBuf.Append | src/stdlib_markdown.c:19-30 | The buffer grows by exactly the appended bytes, doubling as needed |
| MarkdownElements.Bold | src/stdlib_markdown.c:63-76 | Two stars around x give strong around the escaped x, and the rest of the line follows |
| MarkdownElements.Italic | src/stdlib_markdown.c:79-92 | One star around x gives em |
| MarkdownElements.Code | src/stdlib_markdown.c:95-108 | Backticks around x give code |
| MarkdownElements.Link | src/stdlib_markdown.c:111-136 | x in brackets with u in parentheses behind gives a link to the escaped u around the escaped x |
| MarkdownElements.Lonely | src/stdlib_markdown.c:59-136 | A star, a backtick or an opening bracket that nothing closes stays as it is |
| MarkdownElements.PlainText | src/stdlib_markdown.c:138-146 | Text without stars, backticks and opening brackets is escaped as it is |
| MarkdownElements.Entities | src/stdlib_markdown.c:43-57 | The five characters with entities get them, and all others stay |
| MarkdownElements.RuleIff | src/stdlib_markdown.c:150-165 | A line is a rule if and only if it has three or more of one of - * _ and otherwise only spaces |
| MarkdownElements.Rule | src/stdlib_markdown.c:227-235 | A rule is hr alone, after closing every list |
| MarkdownElements.EmptyLine | src/stdlib_markdown.c:221-226 | An empty line closes the open list or quotation |
| MarkdownElements.LastLine | src/stdlib_markdown.c:324-328 | What is open at the end is closed |
| MarkdownElements.Heading | src/stdlib_markdown.c:238-257 | One to six hashes and a space give h1 to h6 around the rest, after closing every list |
| MarkdownElements.Item | src/stdlib_markdown.c:260-274 | A minus and a space give an item of the open unordered list, or of a new one |
| MarkdownElements.Numbered | src/stdlib_markdown.c:277-295 | A number without a leading zero, a dot and a space give an item of an ordered list |
| MarkdownElements.Quoted | src/stdlib_markdown.c:298-310 | A greater-than sign and a space give a line of a quotation |
| MarkdownElements.Fence | src/stdlib_markdown.c:195-213 | Three backticks open pre and code, or close them |
| MarkdownElements.CodeLine | src/stdlib_markdown.c:215-219 | A line of code is only escaped |
| MarkdownElements.Paragraph | src/stdlib_markdown.c:313-321 | Every other line is a paragraph |
| MarkdownElements.OneMoreLine | src/stdlib_markdown.c:183-193 | A document is rendered line by line |
| Base64.EncodeIsBits | src/stdlib_session.c:147-177 | Letter k of the encoding stands for bits 6k to 6k+5 of the input, zero bits behind its end, and what holds no bit of the input is padding (section 4 of RFC 4648) |
| Base64.DecodeEncode | src/stdlib_session.c:188-221 | Decoding undoes encoding, for every byte string |
| Base64.NoDots | src/stdlib_session.c:145-177 | Base64 text never contains a dot |
| Base64.TestVectors | src/stdlib_session.c:145-177 | The test vectors of section 10 of RFC 4648 |
| Base64.EncodeBytes | src/stdlib_session.c:147-177 | The loop over groups and the padding after it produce the encoding, NUL-terminated, in a buffer of the precomputed size |
| Base64.DecodeBytes | src/stdlib_session.c:188-221 | NULL exactly when the length is no multiple of four or some letter is none; otherwise the decoded bytes, of the length judged by the last two letters |
| Sessions.CookieRoundTrip | src/stdlib_session.c:551-661 | Decoding a cookie under its own non-empty secret restores the session, with lists, maps and other objects as nil |
| Sessions.RestoredIffFlat | src/stdlib_session.c:551-661 | The session comes back unchanged if and only if it holds no list, map or other object |
| Sessions.CookieUnderSecret | src/stdlib_session.c:598-661 | Under any other secret a cookie is accepted exactly when the two codes of its data agree |
| Sessions.AcceptedIsSigned | src/stdlib_session.c:598-661 | Whatever is accepted consists of data without a dot, a dot, and base64 of the code of that data |
| Sessions.SessionJsonRoundTrip | src/stdlib_session.c:239-452 | Reading the JSON of a session gives its entries back in order, with what is not flat as nil |
| Sessions.ReadString | src/stdlib_session.c:332-359 | Every byte string is read back from its session JSON string, control bytes raw |
| Sessions.ReadInt | src/stdlib_session.c:361-390 | Every 48-bit integer is read back from its decimal text |
| Sessions.DotSplits | src/stdlib_session.c:605-613 | The first dot of a cookie is its separator |
| SessionTexts.SessionMeans | src/stdlib_session.c:228-304 | The session part of a cookie is the text of a JSON object, strict but for control characters in strings, that means the entries of the session |
| SessionStore.Session.Encode | src/stdlib_session.c:551-595 | Returns the cookie of the current session, or nil without a secret |
| SessionStore.Session.Decode | src/stdlib_session.c:598-661 | Replaces the session exactly when the cookie is accepted, and otherwise leaves it as it is |
| SessionStore.Session.Set | src/stdlib_session.c:488-496 | Afterwards the key, and no other, has the new value |
| SessionStore.Session.Init | src/stdlib_session.c:469-483 | The secret is replaced and the session stays |
| SessionStore.EncodeThenDecode | src/stdlib_session.c:551-661 | Encoding and then decoding with the running code restores the session, with what is not flat as nil |
| SessionStore.ReadSession | src/stdlib_session.c:415-452 | The object parser with a moving position returns what the specification says, also on malformed text |
| SessionStore.WriteSession | src/stdlib_session.c:282-304 | The loop over the entries writes exactly the JSON of the session |
| VebcRoundTrip.FirstFunctionComesBack | src/vebc_loader.c:39-339 | Whatever functions and assets a builder was given, in any order and within its limits: the written file loads, its digest verifies, and function 0 comes back with the same code, arity and upvalue count, its name or <script>, its lines as LinesRestoredIff says, and its kept constants before all others |
| VebcRoundTrip.PlainFunctionComesBack | src/vebc_loader.c:221-339 | The per-byte lines come back exactly if the first is not -1, and the constants are a prefix of the loaded ones if all are integers, floats, strings or bytes |
| VebcRoundTrip.LinesRestoredIff | src/vebc_loader.c:265-289 | Expanding the line runs gives every byte its line if and only if there are no lines or the first is not -1 |
| VebcRoundTrip.ExpandRuns | src/vebc_writer.c:80-95 | From any byte on, expanding the runs that start there gives the lines of the bytes from there on |
| VebcRoundTrip.KeptIff | src/vebc_writer.c:96-105 | The constant table of a function is kept as it is if and only if it holds integers, floats, strings and bytes only |
| VebcRoundTrip.WrittenFileLoads | src/vebc_loader.c:39-219 | The section walk of every written file succeeds with every section where the writer put it, and the digest matches |
| VebcRoundTrip.BuilderHolds | src/vebc_writer.c:62-107 | After any calls within the limits, function 0 is the first function added, with its code, lines and constants at the front of the shared tables and all string indices valid |
| VebcRoundTrip.AddConstantsMeans | src/vebc_writer.c:96-105 | Adding the constants of a function appends exactly their kept values to what the table means |
| VebcRoundTrip.ConstantsAt | src/vebc_loader.c:291-336 | Constants read from a file are the values that were written |
| VebcRoundTrip.StringsAt | src/vebc_loader.c:133-150 | Strings read from a file are the strings that were written |
| VebcFiles.VebcBuilder.AddString | src/vebc_writer.c:49-60 | Equal strings share an index; a full table gives index 0 |
| VebcFiles.VebcBuilder.AddFunction | src/vebc_writer.c:62-107 | The builder afterwards is that of the specification, field by field |
| VebcFiles.VebcBuilder.AddAsset | src/vebc_writer.c:109-117 | The asset and its path are added unless the table is full |
| VebcFiles.VebcBuilder.FileSize | src/vebc_writer.c:122-133 | The size computed before writing is 64 plus the size of the sections |
| VebcFiles.VebcBuilder.Write | src/vebc_writer.c:119-194 | The bytes written are the file of the specification, and the final position is the precomputed size |
| VebcFiles.LoadFile | src/vebc_loader.c:39-210 | The walk with its bounds checks accepts exactly what the specification accepts and finds the same sections |
| VebcFiles.LoadFunction | src/vebc_loader.c:221-339 | With the 32-bit sums of the source, the function rebuilt by the loops is that of the specification for every file that it does not read outside of |
| VebcBounds.ReadsInsideIff | src/vebc_loader.c:233-289 | In a file below 4 GB all reads stay inside if and only if the function is refused, or the 32-bit sum for the code does not wrap around and one for the lines that does belongs to a walk that ends in time |
| VebcBounds.SameFunction | src/vebc_loader.c:221-339 | Where no sum wraps around the reads stay inside, and the function is that of VebcRoundTrip |
| VebcBounds.WrittenFileIsInside | src/vebc_loader.c:221-339 | Every written file is read inside |
| VebcFiles.FillLines | src/vebc_loader.c:265-289 | The nested loops give every byte the line of the last entry at or before it, reading entries up to the first one behind the code |
| VebcFiles.LineRuns | src/vebc_writer.c:80-95 | The loop makes an entry wherever the line differs from the one before |
| VebcExample.FileOfF | src/vebc_writer.c:130-195 | Every byte of the file of one small function that has a constant of each kind |
| VebcExample.StringLimit | src/vebc_writer.c:47-58 | A new string beyond 4096 gets index 0, and is otherwise added |
| VebcExample.ConstantLimit | src/vebc_writer.c:96-97 | A builder keeps 4096 constants and no more |
| RateLimit.AllowedBetween | src/stdlib_ratelimit.c:22-94 | Between any two points of any run the allowed checks of a key number at most its capacity plus its rate times the time gone by on the latest readings, also when the clock steps back |
| RateLimit.AllowedFromStart | src/stdlib_ratelimit.c:22-94 | From the beginning of a run the same bound holds with the time since the first check of the key, less the tokens left |
| RateLimit.BucketStaysOk | src/stdlib_ratelimit.c:31-94 | On integers the tokens stay between 0 and the capacity, and the bucket remembers the latest time seen |
| RateLimit.RunBound | src/stdlib_ratelimit.c:31-94 | From any bucket a run lets through at most its tokens and what the time brings |
| RateLimit.KeysAreIndependent | src/stdlib_ratelimit.c:22-94 | The bucket and the answers of a key are those of a run with the checks of other keys left out |
| RateLimit.AllowsIff | src/stdlib_ratelimit.c:58-75 | A check is allowed if and only if its key is new, tokens are left, or time has gone by |
| RateLimit.RefusedIsSpent | src/stdlib_ratelimit.c:30-75 | The bound is met: a check is refused only if, since some check that found a full bucket, exactly the capacity and all that the time brought have been let through |
| RateLimitWords.RateLimiter.Check | src/stdlib_ratelimit.c:22-108 | One check in 64-bit integers and boxed 48-bit fields refills, takes a token and stores the bucket as on integers, where C defines it; an invalid capacity or rate gives nil and changes nothing |
| RateLimitWords.WordsAreExact | src/stdlib_ratelimit.c:22-108 | In 64-bit and boxed 48-bit arithmetic every run in which no bucket rests for more than 65535 seconds has the same buckets and answers as on integers |
| RateLimitWords.DefinedIff | src/stdlib_ratelimit.c:61-69 | The refill of one check stays inside 64 bits if and only if tokens plus elapsed times rate is below 2^63 |
| RateLimitWords.RestIff | src/stdlib_ratelimit.c:61-69 | For all tokens and rates that is so if and only if the bucket rested for at most 65535 seconds |
| RateLimitWords.LostRefill | src/stdlib_ratelimit.c:61-94 | Beyond the bound, with wrap-around, a check is refused that should find a full bucket, and the bucket then holds more than its capacity |

## Left out

- Scanning: the compiler starts from tokens; the end of the sequence is the end-of-file token, and newlines are tokens.
- Local variables, functions, lists, maps, fields, indexing, ranges and `return` in scripts: the script theorem is about top-level code, where every name is a global; natives and native bound methods are calls whose result or error and effect on the globals are given by the host.
- `for` loops: each round pushes an iterator copy that nothing pops, so the stack is not neutral.
- Error recovery and messages: compilation stops at the first error, and the result is then no program in both; a run-time error is its kind, text and the globals at that moment.
- Simulation.RunCall: does not cover calls of closures, since function declarations are left out, nor heap objects that a native changes.
- Machine.VM.Run: covers the opcodes that top-level scripts use; closure, upvalue, collection and field opcodes are left out, and the first two are in OpenUpvalues.
- Machine.VM.Dispatch: covers the same opcodes as Machine.VM.Run.
- Compiling.Compile: needs the chains of the script to fit the array of exit jumps, the exact condition of Chains.ScriptInRangeIff, since beyond it C leaves the behaviour undefined; after the first error the source goes on and could still overrun the array, the model stops.
- Compiling.Compiler.IfStatement: needs the same; the chain of `elsif` arms is compiled by recursion, so exit jumps are patched in reverse order.
- Undefined behaviour of C in `*` beyond 64 bits and in shifts beyond the width: products are assumed to fit where the source needs it; shift results are truncated explicitly.
- Values.BoxedArithmetic: does not cover products of unboxed operands that overflow 64 bits, which the source leaves undefined.
- Re-entrant calls from C: only OP_CALL and the ordinary return path are modelled.
- Assignment that declares a new local inside a branch: the depth of the stack then depends on the path taken.
- Upvalues.UpvaluesAreCells: is about runs in which OP_POP drops no captured slot. Scopes.ScopeIsDisciplined gives this for the pops at the end of a scope; that all other pops drop temporaries is not proved from the compiler, and does not hold when an assignment declares a local on one path only.
- Resolution.ResolvedUpvalueIsNearestCell: assumes room at every level that needs an upvalue, the exact condition of ResolveExtendsIff, and that the index of a local is its frame slot.
- Addresses are indices and pointers are references; masks with a power of two are remainders; 32-bit counters are assumed not to overflow, and allocation not to fail.
- Collecting.Heap.Collect: the payload of an object is what the tracer sees of it; freeing memory is leaving the tracked array, and the moment at which the collector runs is free.
- Collecting.Heap.NewString: needs the probe of the intern table to end, as the source does.
- ObjMaps.ObjMap.Get: needs a NULL slot or the key, the exact condition of Probing.TerminatesIff; likewise Delete and the set that does not grow.
- Floats in JSON, session and `.vebc` round trips: the printed digits of `%g` do not determine a double.
- JsonMeaning.Means: leaves the order of the entries of a map open, and the double that a number with fraction or exponent is read as to strtod.
- Operators.FloatOperators: the operations of doubles are those of the host; likewise Operators.FloatRelations and Operators.DivisionAndPower.
- ScriptValues.LineRuns: is about products that fit 64 bits, since the others are undefined in the source, and about literals, which have no sign.
- Precedence.PhraseReads: is about phrases without newlines inside parentheses and behind and, or and =, which the parser also skips.
- The order of map entries is a list of entries in table order; which slot an entry has is not modelled in the codecs.
- Crc32.Compute: builds its table first each time instead of keeping a flag that it has been built.
- GzipFormat.MembersAreRead: is about files of one member of stored blocks; compressed blocks and further members, which the source does not read, are left out.
- RateLimitWords.RateLimiter.Check: needs the refill to stay inside 64 bits, the exact condition of RateLimitWords.DefinedIff; the wall clock is a parameter; the reply map is a pair.
- RateLimit.BucketStaysOk: is about unbounded integers, which RateLimitWords.WordsAreExact shows to be the machine's within its bound.
- SessionStore.SameDigest: its accumulated difference bits are one flag; the running time is not modelled.
- Sessions.AcceptedIsSigned: says nothing about who can compute a code, since the code is any function of secret and data.
- Flash data and the get and delete functions of sessions, which are one map operation each.
- VebcFiles.VebcBuilder.Write: the file system is left out; the bytes are those given to fwrite. Table fields are written entry by entry as whole byte strings.
- VebcFiles.LoadFunction: needs its reads to stay inside the file, the exact condition of VebcBounds.ReadsInsideIff, since beyond it C leaves the behaviour undefined.
- VebcRoundTrip.FirstFunctionComesBack: assumes the string and constant tables stay below their limits and the file below 4 GB; nested functions and functions after the first are not loaded by the source.
- MarkdownRendering.RenderDocument: the input is a byte string; that a value of another type gives nil is left out.
- HttpFraming.StandardLength: is about the fields as the parser separates them; where the standard leaves a choice between repairing and refusing, it refuses.
- JsonGrammar.IsJsonText: bytes stand for characters, so that they are UTF-8 (section 8.1 of RFC 8259) is apart (that escapes are written in UTF-8 is in Utf8Text).
- Http: finding a header by name for a caller, and the text of a method, which are lookups.
- The formatter, the event loop, HTTP client, mail, file watcher, command line, development server, storage, jobs, migrations, SHA-256 and HMAC bodies, and the map wrappers (kv, cache, flash, i18n, cors): system calls, foreign libraries, or easy members.
