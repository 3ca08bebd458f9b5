/**
  The translator as the source literally behaves where it departs from the evidently
  intended behaviour modelled in `Assembler`:

  - a line that cleans to nothing does not reset the command type, so the passes handle
    the previous command once more (and the read past the last newline of a file is such
    a line);
  - a mnemonic missing from a code table reads as the empty string, so the emitted
    C-instruction word is shorter than 16 characters.

  Each behaviour is stated next to the corrected one, with the inputs that tell them apart.
 */
module AsWritten {
  import opened Wrappers
  import opened Text
  import opened Parser
  import opened SymbolTables
  import opened Code
  import opened Assembler

  // ---------------------------------------------------------------------------
  // Stale command type on blank lines
  // ---------------------------------------------------------------------------

  /**
    What the passes act on, read by read: a line with a command is that command; a line
    without one repeats `last`, the command most recently parsed (none before the first).
   */
  function Stale(prog: Program, last: Option<Command>): (r: Program)
    ensures |r| == |prog|
    ensures forall j :: 0 <= j < |prog| && prog[j].Some? ==> r[j] == prog[j]
  {
    if |prog| == 0 then []
    else
      var now := if prog[0].Some? then prog[0] else last;
      [now] + Stale(prog[1..], now)
  }

  /** A line without a command repeats what the read before it acted on; the first one repeats `last`. */
  lemma {:induction false} StaleRepeats(prog: Program, last: Option<Command>, j: nat)
    requires j < |prog| && prog[j].None?
    ensures Stale(prog, last)[j] == if j == 0 then last else Stale(prog, last)[j - 1]
  {
    if j > 0 {
      var now := if prog[0].Some? then prog[0] else last;
      StaleRepeats(prog[1..], now, j - 1);
      assert Stale(prog, last)[j] == Stale(prog[1..], now)[j - 1];
      if j > 1 {
        assert Stale(prog, last)[j - 1] == Stale(prog[1..], now)[j - 2];
      }
    }
  }

  /** Where every line holds a command, nothing is repeated. */
  lemma {:induction false} StaleWithoutBlanks(prog: Program, last: Option<Command>)
    requires forall j :: 0 <= j < |prog| ==> prog[j].Some?
    ensures Stale(prog, last) == prog
  {
  }

  /**
   * Both passes acting on the stale reading of every line. Only the reading is as
   * written: an unlisted mnemonic still stops the translation, where the source
   * writes the short word that `EncodeCAsWritten` gives.
   */
  function AssembleAsWritten(lines: seq<string>): Result<Emitted, AssemblyError> {
    AssembleProgram(Stale(ParseProgram(lines), None))
  }

  /** Without blank or comment-only lines the translation as written is the corrected one. */
  lemma AsWrittenWithoutBlanks(lines: seq<string>)
    requires forall j :: 0 <= j < |lines| ==> Clean(lines[j]) != ""
    ensures AssembleAsWritten(lines) == Assemble(lines)
  {
    StaleWithoutBlanks(ParseProgram(lines), None);
  }

  /** The lines of a file holding `@5` and a final newline, as the passes see them. */
  lemma TrailingNewlineReads()
    ensures ParseProgram(["@5", ""]) == [Some(ACommand("5")), None]
    ensures Stale(ParseProgram(["@5", ""]), None) == [Some(ACommand("5")), Some(ACommand("5"))]
  {
    ReadsLine("@5", Some(ACommand("5")));
    var prog := ParseProgram(["@5", ""]);
    assert prog == [Some(ACommand("5")), None];
  }

  /**
    A file holding `@5` and a final newline: the loop reads `@5` and then, before reaching
    the end of the file, one more empty line. As written the instruction is emitted twice.
   */
  lemma TrailingNewlineRepeats()
    ensures var lines := ["@5", ""];
      && Assemble(lines).Success? && Assemble(lines).value.code == [EncodeA(5)]
      && AssembleAsWritten(lines).Success? && AssembleAsWritten(lines).value.code == [EncodeA(5), EncodeA(5)]
  {
    TrailingNewlineReads();
    OneFive(ParseProgram(["@5", ""]));
    TwoFives(Stale(ParseProgram(["@5", ""]), None));
  }

  /** `@5` followed by a blank read emits the A-word of 5 once. */
  lemma OneFive(prog: Program)
    requires |prog| == 2 && prog[0] == Some(ACommand("5")) && prog[1].None?
    ensures AssembleProgram(prog).Success? && AssembleProgram(prog).value.code == [EncodeA(5)]
  {
    assert KnownMnemonics(prog[0]) && KnownMnemonics(prog[1]);
    CountTwo(prog);
    assert prog[..2] == prog;
    FivesOnly(prog);
    OnlyFives(prog);
    var code := AssembleProgram(prog).value.code;
    assert |code| == 1 && code[0] == EncodeA(5);
  }

  /** `@5` read twice emits the A-word of 5 twice. */
  lemma TwoFives(prog: Program)
    requires |prog| == 2 && prog[0] == Some(ACommand("5")) && prog[1] == Some(ACommand("5"))
    ensures AssembleProgram(prog).Success? && AssembleProgram(prog).value.code == [EncodeA(5), EncodeA(5)]
  {
    assert KnownMnemonics(prog[0]) && KnownMnemonics(prog[1]);
    CountTwo(prog);
    assert prog[..2] == prog;
    FivesOnly(prog);
    OnlyFives(prog);
    var code := AssembleProgram(prog).value.code;
    assert |code| == 2 && code[0] == EncodeA(5) && code[1] == EncodeA(5);
  }

  /** A program whose every line is `@5` or blank has only `@5` instructions. */
  lemma {:induction false} FivesOnly(prog: Program)
    requires forall j :: 0 <= j < |prog| ==> prog[j].None? || prog[j] == Some(ACommand("5"))
    ensures forall k :: 0 <= k < |Instructions(prog)| ==> Instructions(prog)[k] == ACommand("5")
  {
    if |prog| > 0 {
      FivesOnly(prog[1..]);
    }
  }

  /** Where every instruction is `@5`, every word emitted is the A-word of 5. */
  lemma OnlyFives(prog: Program)
    requires AssembleProgram(prog).Success?
    requires forall k :: 0 <= k < |Instructions(prog)| ==> Instructions(prog)[k] == ACommand("5")
    ensures forall k :: 0 <= k < |AssembleProgram(prog).value.code| ==> AssembleProgram(prog).value.code[k] == EncodeA(5)
  {
    LeadingNumberOfDecimal(5, "");
    assert Decimal(5) + "" == "5";
    forall k | 0 <= k < |AssembleProgram(prog).value.code|
      ensures AssembleProgram(prog).value.code[k] == EncodeA(5)
    {
      SecondPassEmitsWord(prog, FirstPass(prog), 0, k);
    }
  }

  /** The lines `@0`, blank, `(END)`, `@END`, as the passes see them: the blank line repeats `@0`. */
  lemma BlankLineReads(lines: seq<string>)
    requires lines == ["@0", "", "(END)", "@END"]
    ensures var prog := ParseProgram(lines);
      && |prog| == 4 && prog[0] == Some(ACommand("0")) && prog[1].None?
      && prog[2] == Some(LCommand("END")) && prog[3] == Some(ACommand("END"))
      && Stale(prog, None)[1] == Some(ACommand("0"))
  {
    ReadsLine("@0", Some(ACommand("0")));
    ReadsLine("(END)", Some(LCommand("END")));
    ReadsLine("@END", Some(ACommand("END")));
    StaleRepeats(ParseProgram(lines), None, 1);
  }

  /** The example lines read as the commands they spell. */
  lemma ReadsLine(line: string, c: Option<Command>)
    requires (line, c) in [("@0", Some(ACommand("0"))), ("@5", Some(ACommand("5"))),
                           ("(END)", Some(LCommand("END"))), ("@END", Some(ACommand("END")))]
    ensures ParseLine(line) == c
  {
    if line == "@0" {
      ParseRenderA("0");
      assert "@" + "0" == line;
    } else if line == "@5" {
      ParseRenderA("5");
      assert "@" + "5" == line;
    } else if line == "(END)" {
      ParseRenderL("END");
      assert "(" + "END" + ")" == line;
    } else {
      ParseRenderA("END");
      assert "@" + "END" == line;
    }
  }

  /** In a program of address and label lines only, the label on line 2 is bound to the instructions before it. */
  lemma LabelOnThirdLine(prog: Program, before: nat)
    requires |prog| == 4 && prog[2] == Some(LCommand("END")) && prog[3] == Some(ACommand("END"))
    requires prog[0] == Some(ACommand("0")) && (prog[1].None? || prog[1] == Some(ACommand("0")))
    requires before == if prog[1].None? then 1 else 2
    ensures AssembleProgram(prog).Success?
    ensures "END" in AssembleProgram(prog).value.table.table && AssembleProgram(prog).value.table.table["END"] == before
  {
    NoComputeSucceeds(prog);
    assert prog[3] != Some(LCommand("END"));
    AssembleBindsLabel(prog, 2, "END");
    CountTwo(prog);
  }

  /** Lines without C-commands always translate. */
  lemma NoComputeSucceeds(prog: Program)
    requires forall j :: 0 <= j < |prog| ==> prog[j].None? || !prog[j].value.CCommand?
    ensures AssembleProgram(prog).Success?
  {
    AssembleOutput(prog);
  }

  lemma CountTwo(prog: Program)
    requires |prog| >= 2
    ensures InstructionCount(prog[..2]) == (if IsInstructionLine(prog[0]) then 1 else 0) + (if IsInstructionLine(prog[1]) then 1 else 0)
  {
    CountStep(prog, 2);
    CountStep(prog[1..], 1);
    assert prog[1..][1..][..0] == [];
  }

  /**
    `@0`, a blank line, `(END)`, `@END`: the label is meant to stand for ROM address 1,
    the address of `@END`. As written the blank line counts `@0` a second time and END
    is bound to 2.
   */
  lemma BlankLineShiftsLabel()
    ensures var lines := ["@0", "", "(END)", "@END"];
      && Assemble(lines).Success? && "END" in Assemble(lines).value.table.table
      && Assemble(lines).value.table.table["END"] == 1
      && AssembleAsWritten(lines).Success? && "END" in AssembleAsWritten(lines).value.table.table
      && AssembleAsWritten(lines).value.table.table["END"] == 2
  {
    var lines := ["@0", "", "(END)", "@END"];
    BlankLineReads(lines);
    var prog := ParseProgram(lines);
    LabelOnThirdLine(prog, 1);
    LabelOnThirdLine(Stale(prog, None), 2);
  }

  // ---------------------------------------------------------------------------
  // Unknown mnemonics read as the empty string
  // ---------------------------------------------------------------------------

  /** A table lookup as `operator[]` answers it: the code's bits, or the empty string for an unlisted mnemonic. */
  function Spelled(field: Option<string>): string {
    match field
    case Some(bits) => bits
    case None => ""
  }

  /** The C-instruction word as written: `111`, then comp, dest and jump as the tables spell them. */
  function EncodeCAsWritten(dest: string, comp: string, jump: string): string {
    "111" + Spelled(Comp(comp)) + Spelled(Dest(dest)) + Spelled(Jump(jump))
  }

  /** With every mnemonic listed, the word as written is the corrected encoder's word. */
  lemma EncodeCAsWrittenAgrees(dest: string, comp: string, jump: string)
    requires Known(dest, comp, jump)
    ensures EncodeC(dest, comp, jump).Some? && EncodeCAsWritten(dest, comp, jump) == EncodeC(dest, comp, jump).value
  {
  }

  /** With any mnemonic unlisted, the word as written is too short to be an instruction. */
  lemma EncodeCAsWrittenShort(dest: string, comp: string, jump: string)
    requires !Known(dest, comp, jump)
    ensures |EncodeCAsWritten(dest, comp, jump)| < 16
  {
  }

  /** `D=X`: comp `X` is unlisted, and the line becomes the 9-character `111` + `010` + `000`. */
  lemma UnknownCompShortWord()
    ensures Comp("X").None? && EncodeC("D", "X", "").None?
    ensures EncodeCAsWritten("D", "X", "") == "111010000"
  {
    CompUnlisted();
    DestOfD();
    JumpTableBijective("", "000");
  }

  lemma CompUnlisted()
    ensures Lookup(CompTable, "X").None?
  {
    LookupSound(CompTable, "X");
    assert forall i :: 0 <= i < |CompTable| ==> CompTable[i].0 != "X";
  }

  lemma DestOfD()
    ensures Dest("D") == Some("010")
  {
    LookupEntry(DestTable, "D", 2);
    DestBitsNameRegisters("D");
  }
}
