/**
  The instruction encoder: the three mnemonic tables of the Hack machine language and the
  two instruction formats built from them.

  An A-instruction is `0` followed by the 15-bit address; a C-instruction is `111` followed by
  the 7 comp bits, the 3 dest bits and the 3 jump bits, in that order.
 */
module Code {
  import opened Wrappers
  import opened Text

  /**
    A mnemonic table: (mnemonic, code) entries. A code is kept as its value and written out as
    a fixed number of binary digits (see `FieldCode`).
   */
  type Table = seq<(string, nat)>

  /** Destination mnemonic to its 3 bits: one bit each for A, D and M. */
  const DestTable: Table := [
    ("", 0), ("M", 1), ("D", 2), ("MD", 3), ("A", 4), ("AM", 5), ("AD", 6), ("AMD", 7)
  ]

  /**
    Computation mnemonic to its 7 bits: the `a` bit (M instead of A) and the six ALU control
    bits. Each value is followed by its 7-digit spelling.
   */
  const CompTable: Table := [
    ("0", 42),    // 0101010
    ("1", 63),    // 0111111
    ("-1", 58),   // 0111010
    ("D", 12),    // 0001100
    ("A", 48),    // 0110000
    ("M", 112),   // 1110000
    ("!D", 13),   // 0001101
    ("!A", 49),   // 0110001
    ("!M", 113),  // 1110001
    ("-D", 15),   // 0001111
    ("-A", 51),   // 0110011
    ("-M", 115),  // 1110011
    ("D+1", 31),  // 0011111
    ("A+1", 55),  // 0110111
    ("M+1", 119), // 1110111
    ("D-1", 14),  // 0001110
    ("A-1", 50),  // 0110010
    ("M-1", 114), // 1110010
    ("D+A", 2),   // 0000010
    ("D+M", 66),  // 1000010
    ("D-A", 19),  // 0010011
    ("D-M", 83),  // 1010011
    ("A-D", 7),   // 0000111
    ("M-D", 71),  // 1000111
    ("D&A", 0),   // 0000000
    ("D&M", 64),  // 1000000
    ("D|A", 21),  // 0010101
    ("D|M", 85)   // 1010101
  ]

  /** The comp table as the source spells it: each mnemonic with its seven binary digits. */
  const CompSpelling: seq<(string, string)> := [
    ("0", "0101010"),
    ("1", "0111111"),
    ("-1", "0111010"),
    ("D", "0001100"),
    ("A", "0110000"),
    ("M", "1110000"),
    ("!D", "0001101"),
    ("!A", "0110001"),
    ("!M", "1110001"),
    ("-D", "0001111"),
    ("-A", "0110011"),
    ("-M", "1110011"),
    ("D+1", "0011111"),
    ("A+1", "0110111"),
    ("M+1", "1110111"),
    ("D-1", "0001110"),
    ("A-1", "0110010"),
    ("M-1", "1110010"),
    ("D+A", "0000010"),
    ("D+M", "1000010"),
    ("D-A", "0010011"),
    ("D-M", "1010011"),
    ("A-D", "0000111"),
    ("M-D", "1000111"),
    ("D&A", "0000000"),
    ("D&M", "1000000"),
    ("D|A", "0010101"),
    ("D|M", "1010101")
  ]

  /** Jump mnemonic to its 3 bits: jump if the result is negative, zero, positive. */
  const JumpTable: Table := [
    ("", 0), ("JGT", 1), ("JEQ", 2), ("JGE", 3), ("JLT", 4), ("JNE", 5), ("JLE", 6), ("JMP", 7)
  ]

  /** The number of address bits an A-instruction carries. */
  const AddressWidth: nat := 15

  /** A string of exactly `w` binary digits. */
  predicate IsCode(s: string, w: nat) {
    |s| == w && IsBits(s)
  }

  // ---------------------------------------------------------------------------
  // Lookups. An unknown mnemonic yields None rather than the empty string.
  // ---------------------------------------------------------------------------

  /**
    The code of `mnemonic` in `table`, None if the table has no entry for it. The table is read
    from its last entry back, so of two entries for one mnemonic the later one wins, as it does
    when the constructor assigns a map entry twice.
   */
  function Lookup(table: Table, mnemonic: string): Option<nat> {
    if |table| == 0 then None
    else if Last(table).0 == mnemonic then Some(Last(table).1)
    else Lookup(table[..|table| - 1], mnemonic)
  }

  /** The mnemonic whose code is `code`: the table read the other way, as a disassembler would. */
  function ReverseLookup(table: Table, code: nat): Option<string> {
    if |table| == 0 then None
    else if Last(table).1 == code then Some(Last(table).0)
    else ReverseLookup(table[..|table| - 1], code)
  }

  function Last(table: Table): (string, nat)
    requires |table| > 0
  {
    table[|table| - 1]
  }

  /** Every code is below `bound`, so it fits the field's width. */
  predicate Fits(table: Table, bound: nat) {
    forall i :: 0 <= i < |table| ==> table[i].1 < bound
  }

  /** No code belongs to two entries. */
  predicate CodesDistinct(table: Table) {
    forall i, j :: 0 <= i < j < |table| ==> table[i].1 != table[j].1
  }

  /** No mnemonic belongs to two entries. */
  predicate MnemonicsDistinct(table: Table) {
    forall i, j :: 0 <= i < j < |table| ==> table[i].0 != table[j].0
  }

  /** Entry `i` holds code `i`: the codes are the positions, as in the dest and jump tables. */
  predicate Positional(table: Table) {
    forall i :: 0 <= i < |table| ==> table[i].1 == i
  }

  /** Lookup answers with the code of an entry for the mnemonic, and fails only when there is none. */
  lemma {:induction false} LookupSound(table: Table, mnemonic: string)
    ensures Lookup(table, mnemonic).Some? ==> (mnemonic, Lookup(table, mnemonic).value) in table
    ensures Lookup(table, mnemonic).None? ==> forall i :: 0 <= i < |table| ==> table[i].0 != mnemonic
  {
    if |table| > 0 && Last(table).0 != mnemonic {
      var init := table[..|table| - 1];
      LookupSound(init, mnemonic);
      assert forall i :: 0 <= i < |init| ==> table[i] == init[i];
    }
  }

  /** Reading back answers with the mnemonic of an entry for the code, and fails only when there is none. */
  lemma {:induction false} ReverseSound(table: Table, code: nat)
    ensures ReverseLookup(table, code).Some? ==> (ReverseLookup(table, code).value, code) in table
    ensures ReverseLookup(table, code).None? ==> forall i :: 0 <= i < |table| ==> table[i].1 != code
  {
    if |table| > 0 && Last(table).1 != code {
      var init := table[..|table| - 1];
      ReverseSound(init, code);
      assert forall i :: 0 <= i < |init| ==> table[i] == init[i];
    }
  }

  /** Lookup finds every mnemonic the table lists. */
  lemma LookupListed(table: Table, mnemonic: string, code: nat)
    requires (mnemonic, code) in table
    ensures Lookup(table, mnemonic).Some?
  {
    LookupSound(table, mnemonic);
    var i :| 0 <= i < |table| && table[i] == (mnemonic, code);
  }

  /** Reading back finds every code the table lists. */
  lemma ReverseListed(table: Table, mnemonic: string, code: nat)
    requires (mnemonic, code) in table
    ensures ReverseLookup(table, code).Some?
  {
    ReverseSound(table, code);
    var i :| 0 <= i < |table| && table[i] == (mnemonic, code);
  }

  /** When no mnemonic repeats, a listed entry is exactly what Lookup answers. */
  lemma LookupEntry(table: Table, mnemonic: string, code: nat)
    requires MnemonicsDistinct(table) && (mnemonic, code) in table
    ensures Lookup(table, mnemonic) == Some(code)
  {
    LookupListed(table, mnemonic, code);
    LookupSound(table, mnemonic);
    var i :| 0 <= i < |table| && table[i] == (mnemonic, code);
    var k :| 0 <= k < |table| && table[k] == (mnemonic, Lookup(table, mnemonic).value);
    assert !(i < k) && !(k < i);
  }

  /** A table of codes below `bound` only ever answers with such a code. */
  lemma LookupFits(table: Table, mnemonic: string, bound: nat)
    requires Fits(table, bound)
    ensures Lookup(table, mnemonic).Some? ==> Lookup(table, mnemonic).value < bound
  {
    LookupSound(table, mnemonic);
    if Lookup(table, mnemonic).Some? {
      var i :| 0 <= i < |table| && table[i] == (mnemonic, Lookup(table, mnemonic).value);
    }
  }

  /** When no code is shared, looking a mnemonic up and reading its code back gives the mnemonic. */
  lemma LookupRoundTrip(table: Table, mnemonic: string)
    requires CodesDistinct(table) && Lookup(table, mnemonic).Some?
    ensures ReverseLookup(table, Lookup(table, mnemonic).value) == Some(mnemonic)
  {
    LookupSound(table, mnemonic);
    ReverseSound(table, Lookup(table, mnemonic).value);
    var code := Lookup(table, mnemonic).value;
    ReverseListed(table, mnemonic, code);
    var i :| 0 <= i < |table| && table[i] == (mnemonic, code);
    var k :| 0 <= k < |table| && table[k] == (ReverseLookup(table, code).value, code);
    assert !(i < k) && !(k < i);
  }

  /** When no mnemonic repeats, reading a code back and looking the mnemonic up gives the code. */
  lemma ReverseRoundTrip(table: Table, code: nat)
    requires MnemonicsDistinct(table) && ReverseLookup(table, code).Some?
    ensures Lookup(table, ReverseLookup(table, code).value) == Some(code)
  {
    ReverseSound(table, code);
    LookupSound(table, ReverseLookup(table, code).value);
    var mnemonic := ReverseLookup(table, code).value;
    LookupListed(table, mnemonic, code);
    var i :| 0 <= i < |table| && table[i] == (mnemonic, code);
    var k :| 0 <= k < |table| && table[k] == (mnemonic, Lookup(table, mnemonic).value);
    assert !(i < k) && !(k < i);
  }

  /** Positional codes are distinct, fit the table's length, and cover every smaller value. */
  lemma PositionalCodes(table: Table, v: nat)
    requires Positional(table)
    ensures Fits(table, |table|) && CodesDistinct(table)
    ensures v < |table| ==> ReverseLookup(table, v).Some?
  {
    if v < |table| {
      ReverseListed(table, table[v].0, v);
    }
  }

  // ---------------------------------------------------------------------------
  // The three tables
  // ---------------------------------------------------------------------------

  /** The dest table gives its eight mnemonics the eight 3-bit codes in order. */
  lemma DestTableFacts()
    ensures Positional(DestTable) && MnemonicsDistinct(DestTable) && |DestTable| == Pow2(3)
  {
  }

  /** The jump table gives its eight mnemonics the eight 3-bit codes in order. */
  lemma JumpTableFacts()
    ensures Positional(JumpTable) && MnemonicsDistinct(JumpTable) && |JumpTable| == Pow2(3)
  {
  }

  /** The comp table has 28 entries, no mnemonic twice, and codes that fit 7 bits and are pairwise different. */
  lemma CompTableFacts()
    ensures |CompTable| == 28 && MnemonicsDistinct(CompTable)
    ensures Fits(CompTable, Pow2(7)) && CodesDistinct(CompTable)
  {
    CompMnemonicsDistinct();
    CompCodesFit();
    CompCodesDistinct();
    assert Pow2(7) == 128;
  }

  lemma CompMnemonicsDistinct()
    ensures MnemonicsDistinct(CompTable)
  {
    CompMnemonicsDistinctIn(0, 7, 0, 7);
    CompMnemonicsDistinctIn(7, 14, 7, 14);
    CompMnemonicsDistinctIn(14, 21, 14, 21);
    CompMnemonicsDistinctIn(21, 28, 21, 28);
    CompMnemonicsDistinctIn(0, 7, 7, 14);
    CompMnemonicsDistinctIn(0, 7, 14, 21);
    CompMnemonicsDistinctIn(0, 7, 21, 28);
    CompMnemonicsDistinctIn(7, 14, 14, 21);
    CompMnemonicsDistinctIn(7, 14, 21, 28);
    CompMnemonicsDistinctIn(14, 21, 21, 28);
  }

  lemma CompMnemonicsDistinctIn(lo: nat, hi: nat, lo2: nat, hi2: nat)
    requires lo < hi <= lo2 + 7 && hi2 <= |CompTable| && lo2 < hi2 && hi - lo <= 7 && hi2 - lo2 <= 7 && lo <= lo2
    ensures forall i, j :: lo <= i < hi && lo2 <= j < hi2 && i < j ==> CompTable[i].0 != CompTable[j].0
  {
  }

  lemma CompCodesFit()
    ensures Fits(CompTable, 128)
  {
  }

  lemma CompCodesDistinct()
    ensures CodesDistinct(CompTable)
  {
    CompCodesDistinctWithin(0, 14);
    CompCodesDistinctWithin(14, 28);
    CompCodesDistinctAcross();
  }

  lemma CompCodesDistinctWithin(lo: nat, hi: nat)
    requires (lo, hi) == (0, 14) || (lo, hi) == (14, 28)
    ensures forall i, j :: lo <= i < j < hi ==> CompTable[i].1 != CompTable[j].1
  {
  }

  lemma CompCodesDistinctAcross()
    ensures forall i, j :: 0 <= i < 14 <= j < 28 ==> CompTable[i].1 != CompTable[j].1
  {
  }

  /**
   * The value of seven binary digits, weighed digit by digit. This is `BinaryValue`
   * written out flat, only so that checking the 28 comp spellings stays cheap;
   * `BinaryValueSeven` proves the two agree.
   */
  function SevenBitValue(s: string): nat
    requires |s| == 7
  {
    64 * BitValue(s[0]) + 32 * BitValue(s[1]) + 16 * BitValue(s[2]) + 8 * BitValue(s[3])
    + 4 * BitValue(s[4]) + 2 * BitValue(s[5]) + BitValue(s[6])
  }

  function BitValue(c: char): nat {
    if c == '1' then 1 else 0
  }

  lemma BinaryValueStep(s: string, k: nat)
    requires IsBits(s) && k < |s|
    ensures BinaryValue(s[..k + 1]) == 2 * BinaryValue(s[..k]) + BitValue(s[k])
  {
    assert s[..k + 1][..k] == s[..k];
  }

  lemma BinaryValueSeven(s: string)
    requires IsBits(s) && |s| == 7
    ensures BinaryValue(s) == SevenBitValue(s)
  {
    assert s[..0] == [];
    BinaryValueStep(s, 0);
    BinaryValueStep(s, 1);
    BinaryValueStep(s, 2);
    BinaryValueStep(s, 3);
    BinaryValueStep(s, 4);
    BinaryValueStep(s, 5);
    BinaryValueStep(s, 6);
    assert s[..7] == s;
  }

  /** Entry by entry, the spelling lists the comp table's mnemonics and codes. */
  lemma CompSpellingMatches(lo: nat, hi: nat)
    requires lo < hi <= |CompTable| && hi - lo <= 7
    ensures |CompSpelling| == |CompTable|
    ensures forall i :: lo <= i < hi ==>
      (CompSpelling[i].0 == CompTable[i].0 && IsBits(CompSpelling[i].1) && |CompSpelling[i].1| == 7
       && SevenBitValue(CompSpelling[i].1) == CompTable[i].1)
  {
  }

  /** `Comp` spells every mnemonic of the table exactly as the source does. */
  lemma CompSpelled()
    ensures |CompSpelling| == |CompTable|
    ensures forall i :: 0 <= i < |CompSpelling| ==> Comp(CompSpelling[i].0) == Some(CompSpelling[i].1)
  {
    CompTableFacts();
    CompSpellingMatches(0, 7);
    CompSpellingMatches(7, 14);
    CompSpellingMatches(14, 21);
    CompSpellingMatches(21, 28);
    forall i | 0 <= i < |CompSpelling|
      ensures Comp(CompSpelling[i].0) == Some(CompSpelling[i].1)
    {
      CompEntrySpelled(CompSpelling[i].0, CompSpelling[i].1, CompTable[i].1);
    }
  }

  lemma CompEntrySpelled(m: string, bits: string, code: nat)
    requires MnemonicsDistinct(CompTable) && Fits(CompTable, Pow2(7)) && (m, code) in CompTable
    requires IsBits(bits) && |bits| == 7 && SevenBitValue(bits) == code
    ensures Comp(m) == Some(bits)
  {
    LookupEntry(CompTable, m, code);
    BinaryValueSeven(bits);
    BinaryOfValue(bits);
  }

  /** The code of `mnemonic` written as `w` binary digits. */
  function FieldCode(table: Table, w: nat, mnemonic: string): (r: Option<string>)
    requires Fits(table, Pow2(w))
    ensures r.Some? <==> Lookup(table, mnemonic).Some?
    ensures r.Some? ==> IsCode(r.value, w) && BinaryValue(r.value) == Lookup(table, mnemonic).value
  {
    match Lookup(table, mnemonic)
    case None => None
    case Some(v) =>
      LookupFits(table, mnemonic, Pow2(w));
      Some(Binary(v, w))
  }

  /**
    The 3 destination bits of `mnemonic`: its table entry's code in binary, and None exactly
    when the table does not list it (see `LookupSound`).
   */
  function Dest(mnemonic: string): (r: Option<string>)
    ensures r.Some? <==> Listed(DestTable, mnemonic)
    ensures r.Some? ==> IsCode(r.value, 3) && BinaryValue(r.value) == Lookup(DestTable, mnemonic).value
  {
    DestTableFacts();
    PositionalCodes(DestTable, 0);
    FieldCode(DestTable, 3, mnemonic)
  }

  /**
    The 7 computation bits of `mnemonic`: its table entry's code in binary, and None exactly
    when the table does not list it (see `LookupSound`).
   */
  function Comp(mnemonic: string): (r: Option<string>)
    ensures r.Some? <==> Listed(CompTable, mnemonic)
    ensures r.Some? ==> IsCode(r.value, 7) && BinaryValue(r.value) == Lookup(CompTable, mnemonic).value
  {
    CompTableFacts();
    FieldCode(CompTable, 7, mnemonic)
  }

  /**
    The 3 jump bits of `mnemonic`: its table entry's code in binary, and None exactly
    when the table does not list it (see `LookupSound`).
   */
  function Jump(mnemonic: string): (r: Option<string>)
    ensures r.Some? <==> Listed(JumpTable, mnemonic)
    ensures r.Some? ==> IsCode(r.value, 3) && BinaryValue(r.value) == Lookup(JumpTable, mnemonic).value
  {
    JumpTableFacts();
    PositionalCodes(JumpTable, 0);
    FieldCode(JumpTable, 3, mnemonic)
  }

  /** The mnemonic a field's bits stand for, None for bits no mnemonic has. */
  function Unfield(table: Table, bits: string): Option<string>
    requires IsBits(bits)
  {
    ReverseLookup(table, BinaryValue(bits))
  }

  /** Distinct codes make a field invertible: its bits give back the mnemonic. */
  lemma FieldRoundTrip(table: Table, w: nat, mnemonic: string)
    requires Fits(table, Pow2(w)) && CodesDistinct(table) && Lookup(table, mnemonic).Some?
    ensures FieldCode(table, w, mnemonic).Some? && Unfield(table, FieldCode(table, w, mnemonic).value) == Some(mnemonic)
  {
    LookupRoundTrip(table, mnemonic);
  }

  /** When no mnemonic repeats either, every bit pattern read back is written again the same way. */
  lemma FieldReverseRoundTrip(table: Table, w: nat, bits: string)
    requires Fits(table, Pow2(w)) && MnemonicsDistinct(table) && IsCode(bits, w)
    requires Unfield(table, bits).Some?
    ensures FieldCode(table, w, Unfield(table, bits).value) == Some(bits)
  {
    ReverseRoundTrip(table, BinaryValue(bits));
    BinaryOfValue(bits);
  }

  /**
    The dest table is a bijection between its eight mnemonics and all 3-bit codes: codes of
    known mnemonics read back to them, and every 3-bit pattern is the code of exactly one.
    The empty mnemonic (no destination) is coded as 000.
   */
  lemma DestTableBijective(mnemonic: string, bits: string)
    ensures Dest("") == Some("000")
    ensures Dest(mnemonic).Some? ==> Unfield(DestTable, Dest(mnemonic).value) == Some(mnemonic)
    ensures IsCode(bits, 3) ==> Unfield(DestTable, bits).Some? && Dest(Unfield(DestTable, bits).value) == Some(bits)
  {
    DestTableFacts();
    PositionalCodes(DestTable, 0);
    ThreeBits(0);
    LookupEntry(DestTable, "", 0);
    if Dest(mnemonic).Some? {
      FieldRoundTrip(DestTable, 3, mnemonic);
    }
    if IsCode(bits, 3) {
      BinaryOfValue(bits);
      PositionalCodes(DestTable, BinaryValue(bits));
      FieldReverseRoundTrip(DestTable, 3, bits);
    }
  }

  /**
    The jump table is a bijection between its eight mnemonics and all 3-bit codes, with the
    empty mnemonic (no jump) coded as 000.
   */
  lemma JumpTableBijective(mnemonic: string, bits: string)
    ensures Jump("") == Some("000")
    ensures Jump(mnemonic).Some? ==> Unfield(JumpTable, Jump(mnemonic).value) == Some(mnemonic)
    ensures IsCode(bits, 3) ==> Unfield(JumpTable, bits).Some? && Jump(Unfield(JumpTable, bits).value) == Some(bits)
  {
    JumpTableFacts();
    PositionalCodes(JumpTable, 0);
    ThreeBits(0);
    LookupEntry(JumpTable, "", 0);
    if Jump(mnemonic).Some? {
      FieldRoundTrip(JumpTable, 3, mnemonic);
    }
    if IsCode(bits, 3) {
      BinaryOfValue(bits);
      PositionalCodes(JumpTable, BinaryValue(bits));
      FieldReverseRoundTrip(JumpTable, 3, bits);
    }
  }

  /**
    The comp table gives each of its 28 mnemonics its own 7-bit code: decoding recovers the
    mnemonic, and distinct mnemonics never share a code.
   */
  lemma CompTableInvertible(mnemonic: string, other: string)
    ensures Comp(mnemonic).Some? ==> Unfield(CompTable, Comp(mnemonic).value) == Some(mnemonic)
    ensures Comp(mnemonic).Some? && Comp(other).Some? && mnemonic != other ==> Comp(mnemonic).value != Comp(other).value
  {
    CompTableFacts();
    if Comp(mnemonic).Some? {
      FieldRoundTrip(CompTable, 7, mnemonic);
    }
    if Comp(other).Some? {
      FieldRoundTrip(CompTable, 7, other);
    }
  }

  /** The character a bit flag is written as. */
  function Bit(b: bool): char {
    if b then '1' else '0'
  }

  /** A 3-bit field spelled digit by digit, most significant first. */
  lemma ThreeBits(v: nat)
    requires v < Pow2(3)
    ensures Binary(v, 3) == [Bit(v / 4 % 2 == 1), Bit(v / 2 % 2 == 1), Bit(v % 2 == 1)]
  {
    var half, quarter := v / 2, v / 4;
    assert quarter == half / 2 && quarter < 2;
    assert Binary(quarter, 1) == Binary(quarter / 2, 0) + [Bit(quarter % 2 == 1)];
    assert Binary(half, 2) == Binary(quarter, 1) + [Bit(half % 2 == 1)];
    assert Binary(v, 3) == Binary(half, 2) + [Bit(v % 2 == 1)];
  }

  /** Each dest bit says whether its register is stored to: A, D and M in that order. */
  lemma DestBitsNameRegisters(mnemonic: string)
    requires Dest(mnemonic).Some?
    ensures Dest(mnemonic).value == [Bit('A' in mnemonic), Bit('D' in mnemonic), Bit('M' in mnemonic)]
  {
    LookupSound(DestTable, mnemonic);
    var v := Lookup(DestTable, mnemonic).value;
    var i :| 0 <= i < |DestTable| && DestTable[i] == (mnemonic, v);
    DestEntriesNameRegisters();
    ThreeBits(v);
  }

  lemma DestEntriesNameRegisters()
    ensures forall i :: 0 <= i < |DestTable| ==>
      var (m, v) := DestTable[i];
      v < 8 && (v / 4 % 2 == 1 <==> 'A' in m) && (v / 2 % 2 == 1 <==> 'D' in m) && (v % 2 == 1 <==> 'M' in m)
  {
  }

  /** When each jump mnemonic jumps, given the computed value. */
  function JumpCondition(mnemonic: string, out: int): Option<bool> {
    match mnemonic
    case "" => Some(false)
    case "JGT" => Some(out > 0)
    case "JEQ" => Some(out == 0)
    case "JGE" => Some(out >= 0)
    case "JLT" => Some(out < 0)
    case "JNE" => Some(out != 0)
    case "JLE" => Some(out <= 0)
    case "JMP" => Some(true)
    case _ => None
  }

  /** The jump mnemonics are exactly those with a jump condition. */
  lemma JumpKnown(mnemonic: string, out: int)
    ensures Jump(mnemonic).Some? <==> JumpCondition(mnemonic, out).Some?
  {
    LookupSound(JumpTable, mnemonic);
    if Jump(mnemonic).Some? {
      var v := Lookup(JumpTable, mnemonic).value;
      var i :| 0 <= i < |JumpTable| && JumpTable[i] == (mnemonic, v);
      JumpEntriesNameConditions(out);
    }
    if JumpCondition(mnemonic, out).Some? {
      match mnemonic
      case "" => LookupListed(JumpTable, "", 0);
      case "JGT" => LookupListed(JumpTable, "JGT", 1);
      case "JEQ" => LookupListed(JumpTable, "JEQ", 2);
      case "JGE" => LookupListed(JumpTable, "JGE", 3);
      case "JLT" => LookupListed(JumpTable, "JLT", 4);
      case "JNE" => LookupListed(JumpTable, "JNE", 5);
      case "JLE" => LookupListed(JumpTable, "JLE", 6);
      case "JMP" => LookupListed(JumpTable, "JMP", 7);
      case _ =>
    }
  }

  /** The three jump bits select jumping on a negative, zero and positive value, in that order. */
  lemma JumpBitsNameConditions(mnemonic: string, out: int)
    requires Jump(mnemonic).Some?
    ensures var bits := Jump(mnemonic).value;
      JumpCondition(mnemonic, out) == Some((out < 0 && bits[0] == '1') || (out == 0 && bits[1] == '1') || (out > 0 && bits[2] == '1'))
  {
    LookupSound(JumpTable, mnemonic);
    var v := Lookup(JumpTable, mnemonic).value;
    var i :| 0 <= i < |JumpTable| && JumpTable[i] == (mnemonic, v);
    JumpEntriesNameConditions(out);
    ThreeBits(v);
  }

  lemma JumpEntriesNameConditions(out: int)
    ensures forall i :: 0 <= i < |JumpTable| ==>
      var (m, v) := JumpTable[i];
      v < 8 && JumpCondition(m, out) == Some((out < 0 && v / 4 % 2 == 1) || (out == 0 && v / 2 % 2 == 1) || (out > 0 && v % 2 == 1))
  {
  }

  // ---------------------------------------------------------------------------
  // Instruction formats
  // ---------------------------------------------------------------------------

  /** The A-instruction for `address`: `0` and the low 15 bits (`std::bitset<15>` drops the rest). */
  function EncodeA(address: int): (r: string)
    ensures IsCode(r, 16) && r[0] == '0'
    ensures BinaryValue(r[1..]) == address % Pow2(AddressWidth)
  {
    var bits := Binary(address % Pow2(AddressWidth), AddressWidth);
    assert ("0" + bits)[1..] == bits;
    "0" + bits
  }

  /** The table has an entry for the mnemonic. */
  predicate Listed(table: Table, mnemonic: string) {
    Lookup(table, mnemonic).Some?
  }

  /** All three mnemonics of a C-command are ones the tables list. */
  predicate Known(dest: string, comp: string, jump: string) {
    Listed(DestTable, dest) && Listed(CompTable, comp) && Listed(JumpTable, jump)
  }

  /** The C-instruction `111` + comp + dest + jump, or None if a mnemonic is unknown. */
  function EncodeC(dest: string, comp: string, jump: string): (r: Option<string>)
    ensures r.Some? <==> Known(dest, comp, jump)
    ensures r.Some? ==> IsCode(r.value, 16) && r.value[..3] == "111"
  {
    match (Dest(dest), Comp(comp), Jump(jump))
    case (Some(d), Some(c), Some(j)) =>
      CWordFields(c, d, j);
      Some("111" + c + d + j)
    case _ => None
  }

  /** The fields of a C-instruction sit at bits 3..10 (comp), 10..13 (dest) and 13..16 (jump). */
  lemma CWordFields(c: string, d: string, j: string)
    requires IsCode(c, 7) && IsCode(d, 3) && IsCode(j, 3)
    ensures var w := "111" + c + d + j;
      IsCode(w, 16) && w[..3] == "111" && w[3..10] == c && w[10..13] == d && w[13..16] == j
  {
    var w := "111" + c + d + j;
    assert w[..3] == "111";
    assert w[3..10] == c;
    assert w[10..13] == d;
    assert w[13..16] == j;
  }

  /** A decoded machine instruction. */
  datatype Instruction = AInstruction(address: nat) | CInstruction(dest: string, comp: string, jump: string)

  /** The disassembler: the inverse of the two formats, None for a word that is neither. */
  function Decode(word: string): Option<Instruction> {
    if !IsCode(word, 16) then None
    else if word[0] == '0' then Some(AInstruction(BinaryValue(word[1..])))
    else if word[..3] != "111" then None
    else
      match (Unfield(DestTable, word[10..13]), Unfield(CompTable, word[3..10]), Unfield(JumpTable, word[13..16]))
      case (Some(d), Some(c), Some(j)) => Some(CInstruction(d, c, j))
      case _ => None
  }

  /** Decoding an A-instruction gives back the address modulo 2^15. */
  lemma DecodeEncodeA(address: int)
    ensures Decode(EncodeA(address)) == Some(AInstruction(address % Pow2(AddressWidth)))
  {
  }

  /** Decoding a C-instruction gives back the three mnemonics it was built from. */
  lemma DecodeEncodeC(dest: string, comp: string, jump: string)
    requires EncodeC(dest, comp, jump).Some?
    ensures Decode(EncodeC(dest, comp, jump).value) == Some(CInstruction(dest, comp, jump))
  {
    var w := EncodeC(dest, comp, jump).value;
    var c, d, j := Comp(comp).value, Dest(dest).value, Jump(jump).value;
    DestTableBijective(dest, d);
    CompTableInvertible(comp, comp);
    JumpTableBijective(jump, j);
    CWordFields(c, d, j);
  }
}
