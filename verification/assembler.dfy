/**
  The two-pass translator. The source lines are parsed one by one (a blank line parses to
  no command); both passes are then folds over those parsed lines, threading the symbol
  table: the first binds every label to the ROM address of the instruction that follows it,
  the second resolves address operands (allocating variables) and emits one 16-character
  word per A- or C-command, in source order.
 */
module Assembler {
  import opened Wrappers
  import opened Text
  import opened Parser
  import opened SymbolTables
  import opened Code

  /** The program line by line: the command on each line, or `None` for a line with none. */
  type Program = seq<Option<Command>>

  /** Parses every line of the source: entry `j` is what line `j` parses to. */
  function ParseProgram(lines: seq<string>): (prog: Program)
    ensures |prog| == |lines|
    ensures forall j :: 0 <= j < |lines| ==> prog[j] == ParseLine(lines[j])
  {
    seq(|lines|, j requires 0 <= j < |lines| => ParseLine(lines[j]))
  }

  // ---------------------------------------------------------------------------
  // Reference definitions over the parsed lines
  // ---------------------------------------------------------------------------

  /** The line holds a machine instruction (an A- or C-command). */
  predicate IsInstructionLine(line: Option<Command>) {
    line.Some? && IsInstruction(line.value)
  }

  /** The A- and C-commands of the program, in source order: what becomes ROM. */
  function Instructions(prog: Program): (r: seq<Command>)
    ensures forall k :: 0 <= k < |r| ==> IsInstruction(r[k])
  {
    if |prog| == 0 then []
    else (if IsInstructionLine(prog[0]) then [prog[0].value] else []) + Instructions(prog[1..])
  }

  /** How many instructions the lines hold: the ROM address just past them. */
  function InstructionCount(prog: Program): nat {
    |Instructions(prog)|
  }

  lemma {:induction false} InstructionsAppend(a: Program, b: Program)
    ensures Instructions(a + b) == Instructions(a) + Instructions(b)
  {
    if |a| == 0 {
      assert a + b == b;
    } else {
      assert (a + b)[0] == a[0];
      assert (a + b)[1..] == a[1..] + b;
      InstructionsAppend(a[1..], b);
    }
  }

  /** The instruction on line `j` is the one at ROM address `InstructionCount(prog[..j])`. */
  lemma InstructionAddress(prog: Program, j: nat)
    requires j < |prog| && IsInstructionLine(prog[j])
    ensures InstructionCount(prog[..j]) < |Instructions(prog)|
    ensures Instructions(prog)[InstructionCount(prog[..j])] == prog[j].value
  {
    assert prog == prog[..j] + prog[j..];
    InstructionsAppend(prog[..j], prog[j..]);
    assert prog[j..][0] == prog[j];
  }

  // ---------------------------------------------------------------------------
  // Pass 1: labels
  // ---------------------------------------------------------------------------

  /**
    The first pass from ROM address `rom` on: a label is bound to the current address, an
    A- or C-command moves the address on by one, and invalid and blank lines do nothing.
   */
  function FirstPassFrom(prog: Program, st: SymbolTable, rom: int): (r: SymbolTable)
    ensures r.nextVariable == st.nextVariable
    ensures st.table.Keys <= r.table.Keys
  {
    if |prog| == 0 then st
    else
      match prog[0]
      case Some(LCommand(symbol)) => FirstPassFrom(prog[1..], AddEntry(st, symbol, rom), rom)
      case Some(c) => FirstPassFrom(prog[1..], st, if IsInstruction(c) then rom + 1 else rom)
      case None => FirstPassFrom(prog[1..], st, rom)
  }

  /** The symbol table after the first pass: the predefined symbols and every label. */
  function FirstPass(prog: Program): (r: SymbolTable)
    ensures r.nextVariable == VariableBase
    ensures Initial().table.Keys <= r.table.Keys
  {
    FirstPassFrom(prog, Initial(), 0)
  }

  /** A name no line declares as a label keeps whatever binding it had before the pass. */
  lemma {:induction false} FirstPassKeeps(prog: Program, st: SymbolTable, rom: int, name: string)
    requires forall j :: 0 <= j < |prog| ==> prog[j] != Some(LCommand(name))
    ensures name in FirstPassFrom(prog, st, rom).table <==> name in st.table
    ensures name in st.table ==> FirstPassFrom(prog, st, rom).table[name] == st.table[name]
  {
    if |prog| > 0 {
      assert prog[0] != Some(LCommand(name));
      match prog[0]
      case Some(LCommand(symbol)) =>
        FirstPassKeeps(prog[1..], AddEntry(st, symbol, rom), rom, name);
      case Some(c) =>
        FirstPassKeeps(prog[1..], st, if IsInstruction(c) then rom + 1 else rom, name);
      case None =>
        FirstPassKeeps(prog[1..], st, rom, name);
    }
  }

  /**
    A label is bound to the ROM address reached at its last declaration: the starting
    address plus the number of A- and C-commands before that line.
   */
  lemma {:induction false} FirstPassBindsLabel(prog: Program, st: SymbolTable, rom: int, i: nat, name: string)
    requires i < |prog| && prog[i] == Some(LCommand(name))
    requires forall j :: i < j < |prog| ==> prog[j] != Some(LCommand(name))
    ensures name in FirstPassFrom(prog, st, rom).table
    ensures FirstPassFrom(prog, st, rom).table[name] == rom + InstructionCount(prog[..i])
  {
    if i == 0 {
      FirstPassKeeps(prog[1..], AddEntry(st, name, rom), rom, name);
      assert prog[..0] == [];
    } else {
      var rom1 := if IsInstructionLine(prog[0]) then rom + 1 else rom;
      CountStep(prog, i);
      match prog[0]
      case Some(LCommand(symbol)) =>
        FirstPassBindsLabel(prog[1..], AddEntry(st, symbol, rom), rom, i - 1, name);
      case Some(c) =>
        FirstPassBindsLabel(prog[1..], st, rom1, i - 1, name);
      case None =>
        FirstPassBindsLabel(prog[1..], st, rom, i - 1, name);
    }
  }

  /** Counting the instructions before line `i` one line at a time. */
  lemma CountStep(prog: Program, i: nat)
    requires 0 < i <= |prog|
    ensures InstructionCount(prog[..i]) == (if IsInstructionLine(prog[0]) then 1 else 0) + InstructionCount(prog[1..][..i - 1])
  {
    assert prog[..i][0] == prog[0];
    assert prog[..i][1..] == prog[1..][..i - 1];
  }

  // ---------------------------------------------------------------------------
  // Pass 2: emission
  // ---------------------------------------------------------------------------

  /** Which field of a C-command held the mnemonic the encoder does not know. */
  datatype Field = DestField | CompField | JumpField

  /** Why a translation stopped: the line (0-based) and the unknown mnemonic on it. */
  datatype AssemblyError = UnknownMnemonic(line: nat, field: Field, mnemonic: string)

  /** The words one line emits and the symbol table after it. */
  datatype Step = Step(words: seq<string>, table: SymbolTable)

  /** The words the whole pass emits and the symbol table it ends with. */
  datatype Emitted = Emitted(code: seq<string>, table: SymbolTable)

  /** An operand that starts with a digit is a literal address; anything else is a symbol. */
  predicate IsLiteral(symbol: string) {
    |symbol| > 0 && IsDigit(symbol[0])
  }

  /** The address an A-command names: the leading number of a literal, else the symbol's (perhaps new) address. */
  function ResolveAddress(st: SymbolTable, symbol: string): (r: (SymbolTable, int))
    ensures IsLiteral(symbol) ==> r == (st, LeadingNumber(symbol))
    ensures !IsLiteral(symbol) ==> r == AddVariable(st, symbol)
    ensures !IsLiteral(symbol) ==> symbol in r.0.table && r.0.table[symbol] == r.1
    ensures !IsLiteral(symbol) && symbol !in st.table ==> r.1 == st.nextVariable
    ensures forall k :: k in st.table ==> k in r.0.table && r.0.table[k] == st.table[k]
  {
    if IsLiteral(symbol) then (st, LeadingNumber(symbol)) else AddVariable(st, symbol)
  }

  /** Every mnemonic on the line is one the encoder knows (true of every line that is not a C-command). */
  predicate KnownMnemonics(line: Option<Command>) {
    match line
    case Some(CCommand(dest, comp, jump)) => Known(dest, comp, jump)
    case _ => true
  }

  /** The first unknown mnemonic of a C-command, looked up in the order dest, comp, jump. */
  function UnknownField(dest: string, comp: string, jump: string): (r: (Field, string))
    requires !Known(dest, comp, jump)
    ensures r.0 == DestField ==> r.1 == dest && !Listed(DestTable, dest)
    ensures r.0 == CompField ==> r.1 == comp && Listed(DestTable, dest) && !Listed(CompTable, comp)
    ensures r.0 == JumpField ==> r.1 == jump && Listed(DestTable, dest) && Listed(CompTable, comp) && !Listed(JumpTable, jump)
  {
    if !Listed(DestTable, dest) then (DestField, dest)
    else if !Listed(CompTable, comp) then (CompField, comp)
    else (JumpField, jump)
  }

  /** `line` is a C-command and (`field`, `mnemonic`) names its first unknown mnemonic. */
  predicate NamesUnknown(line: Option<Command>, field: Field, mnemonic: string) {
    match line
    case Some(CCommand(dest, comp, jump)) => !Known(dest, comp, jump) && (field, mnemonic) == UnknownField(dest, comp, jump)
    case _ => false
  }

  /** Every line's mnemonics are known, line by line. */
  predicate AllKnown(prog: Program) {
    |prog| == 0 || (KnownMnemonics(prog[0]) && AllKnown(prog[1..]))
  }

  lemma {:induction false} AllKnownEvery(prog: Program)
    ensures AllKnown(prog) <==> forall j :: 0 <= j < |prog| ==> KnownMnemonics(prog[j])
  {
    if |prog| > 0 {
      AllKnownEvery(prog[1..]);
      assert forall j :: 0 < j < |prog| ==> prog[j] == prog[1..][j - 1];
    }
  }

  /** Translates line number `at` of the program. */
  function TranslateLine(st: SymbolTable, line: Option<Command>, at: nat): (r: Result<Step, AssemblyError>)
    ensures r.Success? <==> KnownMnemonics(line)
    ensures r.Failure? ==> r.error.line == at && NamesUnknown(line, r.error.field, r.error.mnemonic)
    ensures r.Success? ==> |r.value.words| == (if IsInstructionLine(line) then 1 else 0)
    ensures r.Success? ==> forall k :: 0 <= k < |r.value.words| ==> IsCode(r.value.words[k], 16)
  {
    match line
    case Some(ACommand(symbol)) =>
      var (st1, address) := ResolveAddress(st, symbol);
      Success(Step([EncodeA(address)], st1))
    case Some(CCommand(dest, comp, jump)) =>
      (match EncodeC(dest, comp, jump)
       case Some(word) => Success(Step([word], st))
       case None =>
         var (field, mnemonic) := UnknownField(dest, comp, jump);
         Failure(UnknownMnemonic(at, field, mnemonic)))
    case _ => Success(Step([], st))
  }

  /**
    The second pass over `prog`, the first line of which is line number `at`. It stops at
    the first line with an unknown mnemonic; otherwise it emits one word per instruction
    and never changes a binding that already exists.
   */
  function SecondPassFrom(prog: Program, st: SymbolTable, at: nat): (r: Result<Emitted, AssemblyError>)
    ensures r.Success? <==> AllKnown(prog)
    ensures r.Success? ==> |r.value.code| == InstructionCount(prog)
    decreases |prog|
  {
    if |prog| == 0 then Success(Emitted([], st))
    else
      match TranslateLine(st, prog[0], at)
      case Failure(e) => Failure(e)
      case Success(step) =>
        match SecondPassFrom(prog[1..], step.table, at + 1)
        case Failure(e) => Failure(e)
        case Success(rest) => Success(Emitted(step.words + rest.code, rest.table))
  }

  /** A failing pass over a non-empty program fails on its first line or in the rest of the pass. */
  lemma SecondPassFailureUnfold(prog: Program, st: SymbolTable, at: nat)
    requires SecondPassFrom(prog, st, at).Failure?
    ensures |prog| > 0
    ensures TranslateLine(st, prog[0], at).Failure? ==>
      SecondPassFrom(prog, st, at).error == TranslateLine(st, prog[0], at).error
    ensures TranslateLine(st, prog[0], at).Success? ==>
      var rest := SecondPassFrom(prog[1..], TranslateLine(st, prog[0], at).value.table, at + 1);
      rest.Failure? && SecondPassFrom(prog, st, at).error == rest.error
  {
  }

  /** A failing pass names the first line whose mnemonics the encoder does not know. */
  lemma {:induction false} SecondPassStopsAtFirstUnknown(prog: Program, st: SymbolTable, at: nat)
    requires SecondPassFrom(prog, st, at).Failure?
    ensures var e := SecondPassFrom(prog, st, at).error;
      && at <= e.line < at + |prog| && !KnownMnemonics(prog[e.line - at])
      && NamesUnknown(prog[e.line - at], e.field, e.mnemonic)
      && forall j :: 0 <= j < e.line - at ==> KnownMnemonics(prog[j])
  {
    SecondPassFailureUnfold(prog, st, at);
    var e := SecondPassFrom(prog, st, at).error;
    var first := TranslateLine(st, prog[0], at);
    if first.Success? {
      var rest := SecondPassFrom(prog[1..], first.value.table, at + 1);
      assert rest.Failure? && e == rest.error;
      SecondPassStopsAtFirstUnknown(prog[1..], first.value.table, at + 1);
      FirstUnknownShift(prog, at, e);
    } else {
      assert e == first.error;
      FirstLineUnknown(st, prog[0], at);
    }
  }

  /** A line that fails to translate is the line reported, with its first unknown mnemonic. */
  lemma FirstLineUnknown(st: SymbolTable, line: Option<Command>, at: nat)
    requires TranslateLine(st, line, at).Failure?
    ensures var e := TranslateLine(st, line, at).error;
      e.line == at && !KnownMnemonics(line) && NamesUnknown(line, e.field, e.mnemonic)
  {
  }

  /** A first unknown line of `prog[1..]` is the first unknown line of `prog` when `prog[0]` is known. */
  lemma FirstUnknownShift(prog: Program, at: nat, e: AssemblyError)
    requires |prog| > 0 && KnownMnemonics(prog[0])
    requires at + 1 <= e.line < at + |prog| && !KnownMnemonics(prog[1..][e.line - (at + 1)])
    requires NamesUnknown(prog[1..][e.line - (at + 1)], e.field, e.mnemonic)
    requires forall j :: 0 <= j < e.line - (at + 1) ==> KnownMnemonics(prog[1..][j])
    ensures !KnownMnemonics(prog[e.line - at]) && NamesUnknown(prog[e.line - at], e.field, e.mnemonic)
    ensures forall j :: 0 <= j < e.line - at ==> KnownMnemonics(prog[j])
  {
    var line := e.line;
    assert prog[1..][line - (at + 1)] == prog[line - at];
    forall j | 0 < j < line - at
      ensures KnownMnemonics(prog[j])
    {
      assert prog[j] == prog[1..][j - 1];
    }
  }

  /** Every word a successful pass emits is 16 binary digits. */
  lemma {:induction false} SecondPassWords(prog: Program, st: SymbolTable, at: nat)
    requires SecondPassFrom(prog, st, at).Success?
    ensures var code := SecondPassFrom(prog, st, at).value.code;
      forall k :: 0 <= k < |code| ==> IsCode(code[k], 16)
  {
    if |prog| > 0 {
      SecondPassUnfold(prog, st, at);
      var step := TranslateLine(st, prog[0], at).value;
      SecondPassWords(prog[1..], step.table, at + 1);
    }
  }

  /** The second pass never changes a binding that already exists; it only adds variables. */
  lemma {:induction false} SecondPassKeepsBindings(prog: Program, st: SymbolTable, at: nat)
    requires SecondPassFrom(prog, st, at).Success?
    ensures var t := SecondPassFrom(prog, st, at).value.table.table;
      forall k :: k in st.table ==> k in t && t[k] == st.table[k]
  {
    if |prog| > 0 {
      var step := TranslateLine(st, prog[0], at).value;
      SecondPassKeepsBindings(prog[1..], step.table, at + 1);
    }
  }

  /**
    The word an instruction should become, given the final bindings: a literal operand's
    leading number or the symbol's binding in 15 bits, or the encoder's word for a C-command.
   */
  function ExpectedWord(c: Command, t: map<string, int>): Option<string> {
    match c
    case ACommand(symbol) =>
      if IsLiteral(symbol) then Some(EncodeA(LeadingNumber(symbol)))
      else if symbol in t then Some(EncodeA(t[symbol]))
      else None
    case CCommand(dest, comp, jump) => EncodeC(dest, comp, jump)
    case _ => None
  }

  /** The word a single line emits is the expected word for it under any table that keeps the line's bindings. */
  lemma TranslateLineWord(st: SymbolTable, line: Option<Command>, at: nat, t: map<string, int>)
    requires TranslateLine(st, line, at).Success? && IsInstructionLine(line)
    requires var s1 := TranslateLine(st, line, at).value.table.table;
      forall k :: k in s1 ==> k in t && t[k] == s1[k]
    ensures ExpectedWord(line.value, t) == Some(TranslateLine(st, line, at).value.words[0])
  {
    match line.value
    case ACommand(symbol) =>
      if !IsLiteral(symbol) {
        var s1 := TranslateLine(st, line, at).value.table.table;
        assert symbol in s1;
      }
    case CCommand(dest, comp, jump) =>
  }

  /** A successful pass over a non-empty program is the first line's step followed by the rest of the pass. */
  lemma SecondPassUnfold(prog: Program, st: SymbolTable, at: nat)
    requires |prog| > 0 && SecondPassFrom(prog, st, at).Success?
    ensures TranslateLine(st, prog[0], at).Success?
    ensures var step := TranslateLine(st, prog[0], at).value;
      var rest := SecondPassFrom(prog[1..], step.table, at + 1);
      && rest.Success?
      && SecondPassFrom(prog, st, at).value == Emitted(step.words + rest.value.code, rest.value.table)
  {
  }

  /** Word `k` of the output is the expected word for instruction `k`, read with the final bindings. */
  lemma {:induction false} SecondPassEmitsWord(prog: Program, st: SymbolTable, at: nat, k: nat)
    requires SecondPassFrom(prog, st, at).Success?
    requires k < |SecondPassFrom(prog, st, at).value.code|
    ensures var e := SecondPassFrom(prog, st, at).value;
      k < |Instructions(prog)| && ExpectedWord(Instructions(prog)[k], e.table.table) == Some(e.code[k])
  {
    SecondPassUnfold(prog, st, at);
    var e := SecondPassFrom(prog, st, at).value;
    var step := TranslateLine(st, prog[0], at).value;
    var rest := SecondPassFrom(prog[1..], step.table, at + 1).value;
    var n := |step.words|;
    assert Instructions(prog) == (if IsInstructionLine(prog[0]) then [prog[0].value] else []) + Instructions(prog[1..]);
    if k < n {
      SecondPassKeepsBindings(prog[1..], step.table, at + 1);
      TranslateLineWord(st, prog[0], at, e.table.table);
    } else {
      SecondPassEmitsWord(prog[1..], step.table, at + 1, k - n);
      assert Instructions(prog)[k] == Instructions(prog[1..])[k - n];
      assert e.code[k] == rest.code[k - n];
    }
  }

  /** Every word of the output is the expected word for its instruction, in source order. */
  lemma SecondPassEmitsInOrder(prog: Program, st: SymbolTable, at: nat)
    requires SecondPassFrom(prog, st, at).Success?
    ensures var e := SecondPassFrom(prog, st, at).value;
      forall k :: 0 <= k < |e.code| ==> ExpectedWord(Instructions(prog)[k], e.table.table) == Some(e.code[k])
  {
    var e := SecondPassFrom(prog, st, at).value;
    forall k | 0 <= k < |e.code|
      ensures ExpectedWord(Instructions(prog)[k], e.table.table) == Some(e.code[k])
    {
      SecondPassEmitsWord(prog, st, at, k);
    }
  }

  /** The operand of an A-command that names a symbol rather than a literal. */
  function VariableOperand(line: Option<Command>): Option<string> {
    match line
    case Some(ACommand(symbol)) => if IsLiteral(symbol) then None else Some(symbol)
    case _ => None
  }

  /** The symbolic operands not in `bound`, each once, in order of first use: the variables a pass allocates. */
  function NewVariables(prog: Program, bound: set<string>): seq<string> {
    if |prog| == 0 then []
    else
      match VariableOperand(prog[0])
      case Some(symbol) =>
        if symbol in bound then NewVariables(prog[1..], bound)
        else [symbol] + NewVariables(prog[1..], bound + {symbol})
      case None => NewVariables(prog[1..], bound)
  }

  /** Distinct names, none of them in `bound`. */
  predicate Fresh(names: seq<string>, bound: set<string>) {
    (forall k :: 0 <= k < |names| ==> names[k] !in bound)
    && forall k, l :: 0 <= k < l < |names| ==> names[k] != names[l]
  }

  lemma FreshCons(name: string, rest: seq<string>, bound: set<string>)
    requires name !in bound && Fresh(rest, bound + {name})
    ensures Fresh([name] + rest, bound)
  {
    var names := [name] + rest;
    forall k | 0 < k < |names| ensures names[k] == rest[k - 1] && names[k] != name && names[k] !in bound {
      assert rest[k - 1] !in bound + {name};
    }
  }

  /** The new variables are distinct names, none of them already bound. */
  lemma {:induction false} NewVariablesFresh(prog: Program, bound: set<string>)
    ensures Fresh(NewVariables(prog, bound), bound)
  {
    if |prog| > 0 {
      NewVariablesUnfold(prog, bound);
      var op := VariableOperand(prog[0]);
      if op.Some? && op.value !in bound {
        NewVariablesFresh(prog[1..], bound + {op.value});
        FreshCons(op.value, NewVariables(prog[1..], bound + {op.value}), bound);
      } else {
        NewVariablesFresh(prog[1..], bound);
      }
    }
  }

  /** How the allocated variables start: a line with a new symbolic operand contributes it first. */
  lemma NewVariablesUnfold(prog: Program, bound: set<string>)
    requires |prog| > 0
    ensures VariableOperand(prog[0]).Some? && VariableOperand(prog[0]).value !in bound ==>
      NewVariables(prog, bound) == [VariableOperand(prog[0]).value] + NewVariables(prog[1..], bound + {VariableOperand(prog[0]).value})
    ensures VariableOperand(prog[0]).None? || VariableOperand(prog[0]).value in bound ==>
      NewVariables(prog, bound) == NewVariables(prog[1..], bound)
  {
  }

  /** The table a line leaves: a symbolic operand is looked up, and bound to the next variable address if it is new. */
  function Allocate(st: SymbolTable, line: Option<Command>): SymbolTable {
    match VariableOperand(line)
    case Some(symbol) => AddVariable(st, symbol).0
    case None => st
  }

  /** The table after every line of `prog` has allocated its variable, in order. */
  function AllocateAll(prog: Program, st: SymbolTable): SymbolTable {
    if |prog| == 0 then st else AllocateAll(prog[1..], Allocate(st, prog[0]))
  }

  /** Translating a line changes the table exactly as allocating its variable does. */
  lemma TranslateLineAllocates(st: SymbolTable, line: Option<Command>, at: nat)
    requires TranslateLine(st, line, at).Success?
    ensures TranslateLine(st, line, at).value.table == Allocate(st, line)
  {
  }

  /** The table a successful pass ends with is the one variable allocation alone builds. */
  lemma {:induction false} SecondPassTable(prog: Program, st: SymbolTable, at: nat)
    requires SecondPassFrom(prog, st, at).Success?
    ensures SecondPassFrom(prog, st, at).value.table == AllocateAll(prog, st)
  {
    if |prog| > 0 {
      SecondPassUnfold(prog, st, at);
      TranslateLineAllocates(st, prog[0], at);
      var step := TranslateLine(st, prog[0], at).value;
      SecondPassTable(prog[1..], step.table, at + 1);
    }
  }

  /** Allocation never changes a binding that already exists. */
  lemma {:induction false} AllocateAllKeeps(prog: Program, st: SymbolTable)
    ensures var t := AllocateAll(prog, st).table;
      forall k :: k in st.table ==> k in t && t[k] == st.table[k]
  {
    if |prog| > 0 {
      AllocateAllKeeps(prog[1..], Allocate(st, prog[0]));
    }
  }

  /** Allocation moves the variable counter on by the number of variables it allocates. */
  lemma {:induction false} AllocateAllCounter(prog: Program, st: SymbolTable)
    ensures AllocateAll(prog, st).nextVariable == st.nextVariable + |NewVariables(prog, st.table.Keys)|
  {
    if |prog| > 0 {
      NewVariablesUnfold(prog, st.table.Keys);
      AllocateAllCounter(prog[1..], Allocate(st, prog[0]));
    }
  }

  /** After allocation a name is bound exactly when it was bound before or is one of the new variables. */
  lemma {:induction false} AllocateAllKeys(prog: Program, st: SymbolTable)
    ensures forall x :: x in AllocateAll(prog, st).table <==> x in st.table || x in NewVariables(prog, st.table.Keys)
  {
    if |prog| > 0 {
      NewVariablesUnfold(prog, st.table.Keys);
      AllocateAllKeys(prog[1..], Allocate(st, prog[0]));
    }
  }

  /** The `k`-th new variable gets address `nextVariable + k`. */
  lemma {:induction false} AllocateAllVariable(prog: Program, st: SymbolTable, k: nat)
    requires k < |NewVariables(prog, st.table.Keys)|
    ensures var t := AllocateAll(prog, st).table;
      var nv := NewVariables(prog, st.table.Keys);
      nv[k] in t && t[nv[k]] == st.nextVariable + k
  {
    NewVariablesUnfold(prog, st.table.Keys);
    var next := Allocate(st, prog[0]);
    var op := VariableOperand(prog[0]);
    if op.Some? && op.value !in st.table {
      if k == 0 {
        AllocateAllKeeps(prog[1..], next);
      } else {
        assert next.table.Keys == st.table.Keys + {op.value};
        AllocateAllVariable(prog[1..], next, k - 1);
      }
    } else {
      AllocateAllVariable(prog[1..], next, k);
    }
  }

  /** The translation of parsed lines: the first pass, then the second pass with the table it built. */
  function AssembleProgram(prog: Program): (r: Result<Emitted, AssemblyError>)
    ensures r.Success? <==> forall j :: 0 <= j < |prog| ==> KnownMnemonics(prog[j])
    ensures r.Success? ==> |r.value.code| == InstructionCount(prog)
  {
    AllKnownEvery(prog);
    SecondPassFrom(prog, FirstPass(prog), 0)
  }

  /** The whole translation of the source lines. */
  function Assemble(lines: seq<string>): (r: Result<Emitted, AssemblyError>)
    ensures r.Success? <==> forall j :: 0 <= j < |lines| ==> KnownMnemonics(ParseLine(lines[j]))
    ensures r.Success? ==> |r.value.code| == InstructionCount(ParseProgram(lines))
  {
    AssembleProgram(ParseProgram(lines))
  }

  // ---------------------------------------------------------------------------
  // The whole translation. The lemmas speak of the parsed lines `prog`, which for source
  // lines `lines` is `ParseProgram(lines)`.
  // ---------------------------------------------------------------------------

  /**
    The translation succeeds exactly when every C-command uses mnemonics the encoder
    knows, and then emits one 16-character word per A- and C-command.
   */
  lemma AssembleOutput(prog: Program)
    ensures AssembleProgram(prog).Success? <==> forall j :: 0 <= j < |prog| ==> KnownMnemonics(prog[j])
    ensures AssembleProgram(prog).Success? ==> |AssembleProgram(prog).value.code| == InstructionCount(prog)
    ensures AssembleProgram(prog).Success? ==>
      forall k :: 0 <= k < |AssembleProgram(prog).value.code| ==> IsCode(AssembleProgram(prog).value.code[k], 16)
  {
    AllKnownEvery(prog);
    if AssembleProgram(prog).Success? {
      SecondPassWords(prog, FirstPass(prog), 0);
    }
  }

  /**
    A failed translation names the first line whose mnemonics the encoder does not know,
    and on it the first unknown mnemonic, in the order dest, comp, jump.
   */
  lemma AssembleReportsFirstUnknown(prog: Program)
    requires AssembleProgram(prog).Failure?
    ensures AssembleProgram(prog).error.line < |prog|
    ensures !KnownMnemonics(prog[AssembleProgram(prog).error.line])
    ensures var e := AssembleProgram(prog).error; NamesUnknown(prog[e.line], e.field, e.mnemonic)
    ensures forall j :: 0 <= j < AssembleProgram(prog).error.line ==> KnownMnemonics(prog[j])
  {
    var st := FirstPass(prog);
    assert AssembleProgram(prog) == SecondPassFrom(prog, st, 0);
    SecondPassStopsAtFirstUnknown(prog, st, 0);
  }

  /** Lines without A- or C-commands hold no instructions. */
  lemma {:induction false} NoInstructions(prog: Program)
    requires forall j :: 0 <= j < |prog| ==> !IsInstructionLine(prog[j])
    ensures Instructions(prog) == []
  {
    if |prog| > 0 {
      assert !IsInstructionLine(prog[0]);
      NoInstructions(prog[1..]);
    }
  }

  /**
    A label stands for the ROM address of the next instruction after its declaration:
    the number of A- and C-commands before that declaration.
   */
  lemma LabelPointsAtNextInstruction(prog: Program, i: nat, j: nat)
    requires i < j < |prog| && IsInstructionLine(prog[j])
    requires forall m :: i <= m < j ==> !IsInstructionLine(prog[m])
    ensures InstructionCount(prog[..i]) == InstructionCount(prog[..j]) < |Instructions(prog)|
    ensures Instructions(prog)[InstructionCount(prog[..i])] == prog[j].value
  {
    assert prog[..j] == prog[..i] + prog[i..j];
    InstructionsAppend(prog[..i], prog[i..j]);
    NoInstructions(prog[i..j]);
    InstructionAddress(prog, j);
  }

  /**
    After the translation a label is bound to the ROM address reached at its last
    declaration, whatever it was bound to before (a label may rebind a predefined symbol).
   */
  lemma AssembleBindsLabel(prog: Program, i: nat, name: string)
    requires AssembleProgram(prog).Success?
    requires i < |prog| && prog[i] == Some(LCommand(name))
    requires forall j :: i < j < |prog| ==> prog[j] != Some(LCommand(name))
    ensures var t := AssembleProgram(prog).value.table.table;
      name in t && t[name] == InstructionCount(prog[..i])
  {
    FirstPassBindsLabel(prog, Initial(), 0, i, name);
    SecondPassKeepsBindings(prog, FirstPass(prog), 0);
  }

  /** A predefined symbol that no line declares as a label keeps its predefined address. */
  lemma AssembleKeepsPredefined(prog: Program, name: string)
    requires AssembleProgram(prog).Success? && name in Initial().table
    requires forall j :: 0 <= j < |prog| ==> prog[j] != Some(LCommand(name))
    ensures var t := AssembleProgram(prog).value.table.table;
      name in t && t[name] == Initial().table[name]
  {
    FirstPassKeeps(prog, Initial(), 0, name);
    SecondPassKeepsBindings(prog, FirstPass(prog), 0);
  }

  /**
    The instruction on line `j` becomes the word at ROM address `InstructionCount(prog[..j])`,
    and that word is the one the instruction calls for under the final bindings.
   */
  lemma AssembleLineWord(prog: Program, j: nat)
    requires AssembleProgram(prog).Success?
    requires j < |prog| && IsInstructionLine(prog[j])
    ensures var e := AssembleProgram(prog).value;
      var a := InstructionCount(prog[..j]);
      a < |e.code| && ExpectedWord(prog[j].value, e.table.table) == Some(e.code[a])
  {
    InstructionAddress(prog, j);
    SecondPassEmitsWord(prog, FirstPass(prog), 0, InstructionCount(prog[..j]));
  }

  /**
    A reference `@name` to a label becomes the A-instruction for the label's address, even
    when the label is declared further down.
   */
  lemma AssembleResolvesLabel(prog: Program, i: nat, j: nat, name: string)
    requires AssembleProgram(prog).Success? && !IsLiteral(name)
    requires i < |prog| && prog[i] == Some(LCommand(name))
    requires forall m :: i < m < |prog| ==> prog[m] != Some(LCommand(name))
    requires j < |prog| && prog[j] == Some(ACommand(name))
    ensures var e := AssembleProgram(prog).value;
      var a := InstructionCount(prog[..j]);
      a < |e.code| && e.code[a] == EncodeA(InstructionCount(prog[..i]))
  {
    AssembleBindsLabel(prog, i, name);
    AssembleLineWord(prog, j);
  }

  /**
    Every symbolic operand that is neither predefined nor a label becomes a variable: the
    first gets RAM address 16, the next 17, and so on in order of first use, each once.
   */
  lemma AssembleAllocatesVariables(prog: Program)
    requires AssembleProgram(prog).Success?
    ensures var t := AssembleProgram(prog).value.table;
      var nv := NewVariables(prog, FirstPass(prog).table.Keys);
      && Fresh(nv, FirstPass(prog).table.Keys)
      && (forall k :: 0 <= k < |nv| ==> nv[k] in t.table && t.table[nv[k]] == VariableBase + k)
      && t.nextVariable == VariableBase + |nv|
      && forall x :: x in t.table <==> x in FirstPass(prog).table || x in nv
  {
    var st := FirstPass(prog);
    assert st.nextVariable == VariableBase;
    SecondPassTable(prog, st, 0);
    NewVariablesFresh(prog, st.table.Keys);
    AllocateAllCounter(prog, st);
    AllocateAllKeys(prog, st);
    forall k | 0 <= k < |NewVariables(prog, st.table.Keys)|
      ensures var t := AllocateAll(prog, st).table;
        var nv := NewVariables(prog, st.table.Keys);
        nv[k] in t && t[nv[k]] == VariableBase + k
    {
      AllocateAllVariable(prog, st, k);
    }
  }
}
