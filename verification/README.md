# Hack assembler: a Dafny model

This project models the translator in `Assembler.cpp`. It reads Hack assembly language
and turns each A-instruction (`@value`) and C-instruction (`dest=comp;jump`) into a
16-character string of binary digits.

The model covers:

- the **symbol table**: predefined symbols, label entries and variable allocation from
  RAM address 16 on;
- the **parser**: cleaning a line, classifying it as an A-, C-, L-command or invalid, and
  splitting a C-command into its fields;
- the **code tables** for the dest, comp and jump mnemonics;
- the **two passes**: the first binds every label to a ROM address; the second resolves
  operands and emits the words.

Every operation is a pure function.

- The source is the sequence of lines its read loop returns (`seq<string>`).
- `ParseProgram` turns those lines into one `Option<Command>` per line. `None` is a line
  that cleans to nothing.
- Both passes are folds over that parsed program, threading the symbol table.

The model has seven modules:

- `Wrappers`: the `Option` and `Result` types;
- `Text`: whitespace, `find`, decimal and binary numerals;
- `Code`: the three tables, `EncodeA`, `EncodeC` and a decoder;
- `Parser`;
- `SymbolTables`;
- `Assembler`: the passes;
- `AsWritten`: three behaviours of the source that the other modules correct. They are
  described under "Findings".

Tables are kept as sequences of (mnemonic, code) pairs. The code is a number, and it is
spelled in binary when looked up.

- The dest and jump codes are the entry's position in the table.
- `CompSpelling` lists each comp mnemonic with the seven digits the source gives for it.
  `CompSpelled` proves that `Comp` spells every mnemonic that way.
- Lookups answer `None` for a mnemonic a table does not list.
- The corrected translation then stops. It reports the line and the mnemonic.

A C-command is split the way the code splits it. The usual reading of `dest=comp;jump` is
different: split at `=`, then split the rest at `;`.

- The code takes the first `=` and the first `;` of the whole line.
- `semiPos - eqPos - 1` is computed in `size_t`. So when there is no `;`, or the `;` comes
  before the `=`, comp runs to the end of the line.
- `SplitSemicolonBeforeEquals` states this for every line, and `SplitSemicolonFirst` shows one.

Every line of the source a contract below speaks about is in `Assembler.cpp`.

## Model

| member | source | states |
|---|---|---|
| Text.RemoveSpaces | Assembler.cpp:86 | the cleaned text has no whitespace and is no longer than the input |
| Text.RemoveSpacesKeeps | Assembler.cpp:86 | every non-space character keeps its number of occurrences, and no whitespace survives |
| Text.RemoveSpacesFixpoint | Assembler.cpp:86 | text without whitespace is left unchanged, so cleaning twice equals cleaning once |
| Text.RemoveSpacesAppend | Assembler.cpp:86 | removing whitespace distributes over concatenation |
| Text.IndexOf | Assembler.cpp:130-131 | `find` gives the first position of the character; None means it does not occur |
| Text.CommentStart | Assembler.cpp:85 | `find("//")` gives the first `//`, with none before it; None means the line has no `//` |
| Text.Decimal | Assembler.cpp:32 | `to_string` gives a non-empty digit string with no leading zero whose value is the number |
| Text.DigitRun | Assembler.cpp:268 | `stoi` reads the longest run of leading digits |
| Text.LeadingNumber | Assembler.cpp:268 | `stoi` after a leading digit: the value of the longest run of leading digits; `DigitRun` and `LeadingNumberOfDecimal` state it |
| Text.LeadingNumberOfDecimal | Assembler.cpp:268 | `stoi` of a decimal numeral followed by non-digit text reads back the number |
| Text.DecimalInjective | Assembler.cpp:31-33 | distinct numbers have distinct decimal spellings, so the register names are distinct |
| Text.Binary | Assembler.cpp:272 | the `w`-bit spelling of `n < 2^w` is `w` binary digits whose value is `n` |
| Text.BinaryOfValue | Assembler.cpp:272 | every `w`-digit bit string is the spelling of its value, which is below `2^w` |
| Code.LookupSound | Assembler.cpp:162-172 | a table lookup answers the code of an entry for the mnemonic; None means the table has no entry for it |
| Code.Lookup | Assembler.cpp:162-172 | the `operator[]` read of a table, with None in place of the empty string it inserts for an unlisted mnemonic; `LookupSound` and `LookupEntry` state what it answers |
| Code.ReverseSound | Assembler.cpp:162-172 | decoding a code answers an entry with that code; None means the table has no entry with it |
| Code.LookupEntry | Assembler.cpp:162-172 | when no mnemonic repeats, every entry is exactly what its lookup answers |
| Code.LookupRoundTrip | Assembler.cpp:162-172 | with distinct codes, decoding a looked-up code gives back the mnemonic |
| Code.ReverseRoundTrip | Assembler.cpp:162-172 | with distinct mnemonics, looking up a decoded mnemonic gives back the code |
| Code.FieldCode | Assembler.cpp:162-172 | a field is spelled exactly when the mnemonic is listed, as `w` bits whose value is the table's code |
| Code.FieldRoundTrip | Assembler.cpp:162-172 | decoding a spelled field recovers the mnemonic |
| Code.FieldReverseRoundTrip | Assembler.cpp:162-172 | spelling a decoded field recovers the bits |
| Code.Dest | Assembler.cpp:162-164 | the dest bits exist exactly when the dest table lists the mnemonic, and are 3 digits whose value is its code; `DestTableBijective` and `DestBitsNameRegisters` say which code |
| Code.Comp | Assembler.cpp:166-168 | the comp bits exist exactly when the comp table lists the mnemonic, and are 7 digits whose value is its code; `CompSpelled` gives every spelling |
| Code.Jump | Assembler.cpp:170-172 | the jump bits exist exactly when the jump table lists the mnemonic, and are 3 digits whose value is its code; `JumpTableBijective` and `JumpBitsNameConditions` say which code |
| Code.DestTableFacts | Assembler.cpp:175-184 | the dest table has all eight 3-bit codes, each once, and no mnemonic twice |
| Code.JumpTableFacts | Assembler.cpp:217-226 | the jump table has all eight 3-bit codes, each once, and no mnemonic twice |
| Code.CompTableFacts | Assembler.cpp:186-215 | the comp table has 28 entries and no mnemonic twice; its codes fit in 7 bits and are pairwise distinct |
| Code.CompSpelled | Assembler.cpp:186-215 | `Comp` spells each of the 28 mnemonics with exactly the seven digits the source assigns to it |
| Code.DestTableBijective | Assembler.cpp:175-184 | an empty dest is `000`; dest spelling is a bijection between the eight mnemonics and all 3-bit strings |
| Code.JumpTableBijective | Assembler.cpp:217-226 | an empty jump is `000`; jump spelling is a bijection between the eight mnemonics and all 3-bit strings |
| Code.CompTableInvertible | Assembler.cpp:186-215 | a comp code decodes back to its mnemonic, and distinct comp mnemonics have distinct codes |
| Code.DestBitsNameRegisters | Assembler.cpp:175-184 | the three dest bits say whether A, D and M, in that order, appear in the mnemonic |
| Code.JumpKnown | Assembler.cpp:217-226 | the jump table lists exactly the eight mnemonics that name a jump condition |
| Code.JumpBitsNameConditions | Assembler.cpp:217-226 | the three jump bits select jumping on a negative, zero and positive ALU output, in that order |
| Code.EncodeA | Assembler.cpp:272 | an A-word is `0` followed by 15 bits whose value is the address modulo 2^15 |
| Code.EncodeC | Assembler.cpp:274-277 | a C-word exists exactly when all three mnemonics are listed, and is 16 bits starting `111` |
| Code.CWordFields | Assembler.cpp:277 | the C-word holds comp in bits 3-9, dest in bits 10-12 and jump in bits 13-15 |
| Code.DecodeEncodeA | Assembler.cpp:272 | decoding an A-word gives back the address modulo 2^15 |
| Code.DecodeEncodeC | Assembler.cpp:274-277 | decoding a C-word gives back its dest, comp and jump mnemonics |
| Parser.ParseCommand | Assembler.cpp:114-127 | `@` makes an A-command and `(`...`)` an L-command, each holding the text in between; otherwise an `=` or `;` makes a C-command whose fields are the split of the whole line, and anything else is invalid |
| Parser.CommentIgnored | Assembler.cpp:85 | text after a `//` has no effect on how the line reads |
| Parser.Clean | Assembler.cpp:85-86 | the cleaned line has no whitespace, and is the line up to its first `//` with the whitespace removed (`RemoveSpacesKeeps` says what survives) |
| Parser.ParseLine | Assembler.cpp:81-91 | a line reads as no command exactly when it cleans to nothing; otherwise it is classified as `ParseCommand` states (the corrected `advance`, see Findings) |
| Parser.SplitCompute | Assembler.cpp:129-146 | with no `=` dest is empty and with no `;` jump is empty; `SplitNoEquals`, `SplitNoSemicolon`, `SplitAt` and `SplitSemicolonBeforeEquals` give the fields for every line with an operator |
| Parser.SplitNoEquals | Assembler.cpp:136-142 | with a `;` and no `=`, dest is empty, comp is the text before the first `;` and jump all the text after it, further `;` included |
| Parser.SplitNoSemicolon | Assembler.cpp:133-144 | with an `=` and no `;`, dest is the text before the first `=`, comp all the text after it, and jump is empty |
| Parser.SplitFull | Assembler.cpp:129-146 | `dest=comp;jump` splits back into its three fields |
| Parser.SplitNoJump | Assembler.cpp:129-146 | `dest=comp` splits into dest, comp and an empty jump |
| Parser.SplitNoDest | Assembler.cpp:129-146 | `comp;jump` splits into an empty dest, comp and jump |
| Parser.SplitAt | Assembler.cpp:129-146 | with `=` before `;`, the fields are the text before, between and after them |
| Parser.SplitSemicolonBeforeEquals | Assembler.cpp:130-145 | when the first `;` comes before the first `=`, dest runs up to the `=`, comp from after the `=` to the end of the line, and jump from after the `;` to the end |
| Parser.SplitSemicolonFirst | Assembler.cpp:133-135 | for example, `0;JMP=D` splits into dest `0;JMP`, comp `D` and jump `JMP=D` |
| Parser.ParseRender | Assembler.cpp:114-146 | every well-formed command reads back from its canonical text |
| Parser.ParseFull | Assembler.cpp:114-146 | a line `dest=comp;jump` with plain fields reads as that C-command |
| Parser.ParseNoJump | Assembler.cpp:114-146 | a line `dest=comp` reads as that C-command with an empty jump |
| Parser.ParseNoDest | Assembler.cpp:114-146 | a line `comp;jump` reads as that C-command with an empty dest |
| Parser.ReadsAsCompute | Assembler.cpp:120-122 | a plain line not starting with `@` or `(` and holding an operator reads as the split C-command |
| SymbolTables.BindRegistersBinds | Assembler.cpp:31-33 | the register loop binds R0 to R15 to 0 to 15, adds no other name and keeps every other binding |
| SymbolTables.Initial | Assembler.cpp:24-36 | the fresh table; `InitialBindings` states exactly what it binds |
| SymbolTables.InitialBindings | Assembler.cpp:24-36 | a fresh table binds exactly SP..THAT to 0..4, R0..R15 to 0..15, SCREEN to 16384 and KBD to 24576, and starts variables at 16 |
| SymbolTables.InitialRegisterSpelling | Assembler.cpp:31-33 | R0, R9 and R15, spelled out, are bound to 0, 9 and 15 |
| SymbolTables.GetAddress | Assembler.cpp:42-44 | a bound name gives its address and leaves the table alone; an unbound one is bound to 0 and gives 0 |
| SymbolTables.Contains | Assembler.cpp:38-40 | a name is contained exactly when the table binds it; `GetAddress` and `AddVariable` state how they branch on it |
| SymbolTables.AddEntry | Assembler.cpp:46-48 | the name is bound to the address; every other binding and the counter are unchanged |
| SymbolTables.AddVariable | Assembler.cpp:50-55 | a new name gets the counter's address and the counter moves on by one; a bound name keeps its address and the table is unchanged |
| SymbolTables.AddVariableIdempotent | Assembler.cpp:50-55 | asking for the same variable twice changes nothing the second time |
| SymbolTables.GetAddressAfterAddEntry | Assembler.cpp:42-48 | an entry just added is what a lookup returns |
| Assembler.ParseProgram | Assembler.cpp:81-91 | the program has one entry per line read, in source order, and entry `j` is what `ParseLine` reads line `j` as |
| Assembler.InstructionAddress | Assembler.cpp:241-254 | the instruction on line `j` is the one at ROM address "number of instructions before `j`" |
| Assembler.FirstPassFrom | Assembler.cpp:241-254 | the first pass adds bindings and keeps every name and the variable counter; `FirstPassBindsLabel` and `FirstPassKeeps` say what each name is bound to |
| Assembler.FirstPass | Assembler.cpp:241-254 | the first pass starts from the predefined table at ROM address 0: every predefined name stays bound and variables will start at 16 |
| Assembler.FirstPassKeeps | Assembler.cpp:241-254 | a name no line declares as a label keeps its binding through the first pass |
| Assembler.FirstPassBindsLabel | Assembler.cpp:241-254 | a label is bound to the start address plus the number of A- and C-commands before its last declaration |
| Assembler.UnknownField | Assembler.cpp:274-276 | the reported field is the first unlisted one in the order dest, comp, jump |
| Assembler.ResolveAddress | Assembler.cpp:264-271 | an operand starting with a digit is its leading number and leaves the table alone; any other operand gives its binding, allocating the next variable address when it is new; no existing binding changes |
| Assembler.TranslateLine | Assembler.cpp:262-279 | a line translates exactly when its mnemonics are listed, into one word for an instruction and none otherwise, each word 16 bits; a failure reports the line and its first unknown mnemonic |
| Assembler.SecondPassFrom | Assembler.cpp:256-282 | the pass succeeds exactly when every line's mnemonics are listed, and then emits one word per instruction |
| Assembler.SecondPassStopsAtFirstUnknown | Assembler.cpp:256-282 | a failing pass reports the first line with an unlisted mnemonic, and the first unlisted field on it |
| Assembler.SecondPassWords | Assembler.cpp:256-282 | every emitted word is 16 binary digits |
| Assembler.SecondPassKeepsBindings | Assembler.cpp:256-282 | the second pass never changes an existing binding |
| Assembler.TranslateLineWord | Assembler.cpp:262-278 | the word for a line is the expected encoding of its instruction under any table that keeps the line's bindings |
| Assembler.SecondPassEmitsWord | Assembler.cpp:256-282 | word `k` of the output is the expected encoding of instruction `k` under the final table |
| Assembler.SecondPassEmitsInOrder | Assembler.cpp:256-282 | every output word is the expected encoding of its instruction, in source order |
| Assembler.NewVariablesFresh | Assembler.cpp:264-271 | the allocated variables are distinct, and none was bound before |
| Assembler.TranslateLineAllocates | Assembler.cpp:264-271 | translating a line changes the table exactly as allocating its operand does |
| Assembler.SecondPassTable | Assembler.cpp:256-282 | the table a successful pass ends with is the one variable allocation alone builds |
| Assembler.AllocateAllKeeps | Assembler.cpp:50-55 | allocation keeps every existing binding |
| Assembler.AllocateAllCounter | Assembler.cpp:50-55 | the counter moves on by the number of new variables |
| Assembler.AllocateAllKeys | Assembler.cpp:50-55 | afterwards a name is bound exactly when it was bound before or is a new variable |
| Assembler.AllocateAllVariable | Assembler.cpp:50-55 | new variable `k` gets address counter + `k` |
| Assembler.AssembleOutput | Assembler.cpp:235-238 | translation succeeds exactly when every C-command's mnemonics are listed, and then gives one 16-bit word per A- and C-command |
| Assembler.AssembleProgram | Assembler.cpp:235-238 | both passes over the parsed lines succeed exactly when every C-command's mnemonics are listed, and then emit one word per A- and C-command |
| Assembler.Assemble | Assembler.cpp:235-238 | translating source lines succeeds exactly when every line reads as a command with listed mnemonics or as none, and then emits one word per instruction |
| Assembler.AssembleReportsFirstUnknown | Assembler.cpp:274-277 | a failed translation names the first line with an unlisted mnemonic, and on it the first unlisted mnemonic in the order dest, comp, jump |
| Assembler.NoInstructions | Assembler.cpp:247-251 | lines without A- or C-commands occupy no ROM |
| Assembler.LabelPointsAtNextInstruction | Assembler.cpp:246-251 | a label's address is the ROM address of the next instruction after it |
| Assembler.AssembleBindsLabel | Assembler.cpp:246-248 | after translation a label is bound to the ROM address at its last declaration, even over a predefined symbol |
| Assembler.AssembleKeepsPredefined | Assembler.cpp:24-36 | a predefined symbol no line declares as a label keeps its predefined address |
| Assembler.AssembleLineWord | Assembler.cpp:262-278 | the instruction on line `j` becomes the expected word at ROM address "instructions before `j`" |
| Assembler.AssembleResolvesLabel | Assembler.cpp:264-272 | `@name` for a label becomes the A-word of the label's address, even for a forward reference |
| Assembler.AssembleAllocatesVariables | Assembler.cpp:264-271 | the new symbolic operands are distinct, get 16, 17, ... in order of first use, and are the only names the second pass binds |
| AsWritten.Stale | Assembler.cpp:81-91 | a read that finds no command acts on the command parsed last; a read with a command is unaffected |
| AsWritten.StaleRepeats | Assembler.cpp:81-91 | a blank read repeats what the read before it acted on |
| AsWritten.StaleWithoutBlanks | Assembler.cpp:81-91 | without blank reads nothing is repeated |
| AsWritten.AssembleAsWritten | Assembler.cpp:235-238 | both passes with the stale reading of every line; an unlisted mnemonic still stops the translation, unlike the source (see `EncodeCAsWritten`); `AsWrittenWithoutBlanks`, `TrailingNewlineRepeats` and `BlankLineShiftsLabel` compare it with the corrected translation |
| AsWritten.AsWrittenWithoutBlanks | Assembler.cpp:235-238 | without blank or comment-only lines, the as-written translation equals the corrected one |
| AsWritten.TrailingNewlineRepeats | Assembler.cpp:77-91 | for `@5` with a final newline, the corrected translation emits the A-word of 5 once and the as-written one emits it twice |
| AsWritten.BlankLineShiftsLabel | Assembler.cpp:245-251 | for `@0`, a blank line, `(END)`, `@END`, END is bound to 1 in the corrected translation and to 2 as written |
| AsWritten.EncodeCAsWrittenAgrees | Assembler.cpp:274-277 | with every mnemonic listed, the as-written C-word is the corrected encoder's word |
| AsWritten.EncodeCAsWrittenShort | Assembler.cpp:162-172 | with any mnemonic unlisted, the as-written C-word is shorter than 16 characters |
| AsWritten.EncodeCAsWritten | Assembler.cpp:274-277 | the C-word as written; `EncodeCAsWrittenAgrees` and `EncodeCAsWrittenShort` say when it is the corrected word and when it is too short |
| AsWritten.UnknownCompShortWord | Assembler.cpp:166-168 | `D=X` is rejected by the corrected encoder and becomes `111010000` as written |

## Left out

- File input and output and `main` are left out. The model takes the lines the read loop returns and gives back the emitted words; the final newline of each word is not modelled.
- `std::stoi` throwing `out_of_range` on a literal beyond `int` is not modelled. A literal is read as an unbounded number, and `EncodeA` keeps its low 15 bits as `bitset<15>` does.
- `isspace` and `isdigit` are taken in the C locale. Other locales are not modelled.
- Where the source prints each word to the output file, the model returns the sequence of words.
- The uninitialised `commandType` before the first parsed command is undefined behaviour in the source. `AsWritten` reads it as "no command".
- `Code.CompTableInvertible`: states only that the comp codes are distinct and decode back. It does not state which ALU function each code computes.
- AsWritten.AssembleAsWritten: models only the stale reads. On an unlisted mnemonic it stops with `UnknownMnemonic`, where the source writes the short word (`D=X` gives `111010000`). That word is modelled separately by `EncodeCAsWritten` and `UnknownCompShortWord`, so each discrepancy stays visible on its own.
- The side effect of `operator[]` inserting an empty entry into a code table is not modelled. No later lookup observes it.

## Findings

| source | as written | input that shows it | evidently intended | confidence | as-written member | corrected member |
|---|---|---|---|---|---|---|
| Assembler.cpp:81-91 | a line that cleans to nothing skips `parseCommand`, so `getCommandType` still returns the previous command's type and both passes handle that command again | `@0`, a blank line, `(END)`, `@END` binds END to 2 | blank and comment-only lines do nothing, so END is bound to 1 | not executed; follows from the code as read | AsWritten.BlankLineShiftsLabel | Assembler.AssembleBindsLabel |
| Assembler.cpp:77-79 | `hasMoreCommands` tests `eof()` before the read, so after the final newline one more empty line is read. By the row above, the last command is handled twice | a file holding `@5` and a newline emits `0000000000000101` twice | one word per A- and C-command | not executed; follows from the code as read | AsWritten.TrailingNewlineRepeats | Assembler.AssembleOutput |
| Assembler.cpp:162-172 | `operator[]` answers an empty string for an unlisted mnemonic, so the emitted line is shorter than 16 characters | `D=X` emits `111010000` | reject the line with the unknown mnemonic and its line number | not executed; follows from the code as read | AsWritten.UnknownCompShortWord | Assembler.AssembleReportsFirstUnknown |
