/**
  The symbol table: names bound to addresses, seeded with the predefined symbols, grown by
  label definitions in the first pass and by variable allocation in the second.
 */
module SymbolTables {
  import opened Text

  /** The RAM address of the first variable; later variables follow it one by one. */
  const VariableBase: int := 16

  /** The bindings and the address the next new variable will get. */
  datatype SymbolTable = SymbolTable(table: map<string, int>, nextVariable: int)

  /** The name of register `i`: `R` followed by `i` in decimal. */
  function RegisterName(i: nat): string {
    "R" + Decimal(i)
  }

  /** The constructor's loop: binds `R0` .. `R(n-1)` to 0 .. n-1, in that order, on top of `base`. */
  function BindRegisters(base: map<string, int>, n: nat): map<string, int> {
    if n == 0 then base else BindRegisters(base, n - 1)[RegisterName(n - 1) := n - 1]
  }

  /** The number of general registers, `R0` .. `R15`. */
  const RegisterCount: nat := 16

  /** The five named pointers SP, LCL, ARG, THIS and THAT. */
  const Pointers: map<string, int> := map["SP" := 0, "LCL" := 1, "ARG" := 2, "THIS" := 3, "THAT" := 4]

  /** A fresh table: the predefined symbols and no variables yet. */
  function Initial(): SymbolTable {
    SymbolTable(BindRegisters(Pointers, RegisterCount)["SCREEN" := 16384]["KBD" := 24576], VariableBase)
  }

  /** `R` + decimal names never clash with the pointer or I/O names. */
  lemma RegisterNameShape(i: nat)
    ensures RegisterName(i)[0] == 'R' && |RegisterName(i)| >= 2
    ensures RegisterName(i) !in Pointers && RegisterName(i) != "SCREEN" && RegisterName(i) != "KBD"
  {
    var r := RegisterName(i);
    assert r[0] == 'R';
    assert "SCREEN"[0] == 'S' && "KBD"[0] == 'K';
    assert "SP"[0] == 'S' && "LCL"[0] == 'L' && "ARG"[0] == 'A' && "THIS"[0] == 'T' && "THAT"[0] == 'T';
  }

  /** After the loop, each of the first `n` registers names its own number and nothing else changed. */
  lemma {:induction false} BindRegistersBinds(base: map<string, int>, n: nat)
    ensures forall i: nat :: i < n ==> RegisterName(i) in BindRegisters(base, n) && BindRegisters(base, n)[RegisterName(i)] == i
    ensures forall name :: name in BindRegisters(base, n) <==> name in base || exists i: nat :: i < n && name == RegisterName(i)
    ensures forall name :: name in base && (forall i: nat :: i < n ==> name != RegisterName(i)) ==> BindRegisters(base, n)[name] == base[name]
  {
    if n > 0 {
      BindRegistersBinds(base, n - 1);
      forall i: nat | i < n - 1
        ensures RegisterName(i) != RegisterName(n - 1)
      {
        DecimalInjective(i, n - 1);
        assert RegisterName(i)[1..] == Decimal(i);
        assert RegisterName(n - 1)[1..] == Decimal(n - 1);
      }
    }
  }

  /**
    A fresh table binds SP, LCL, ARG, THIS, THAT to 0 .. 4, R0 .. R15 to 0 .. 15, SCREEN to
    16384 and KBD to 24576, binds nothing else, and will give the first variable address 16.
   */
  lemma InitialBindings()
    ensures forall name :: name in Pointers ==> name in Initial().table && Initial().table[name] == Pointers[name]
    ensures forall i: nat :: i < 16 ==> RegisterName(i) in Initial().table && Initial().table[RegisterName(i)] == i
    ensures "SCREEN" in Initial().table && Initial().table["SCREEN"] == 16384
    ensures "KBD" in Initial().table && Initial().table["KBD"] == 24576
    ensures forall name :: name in Initial().table <==>
      name in Pointers || name == "SCREEN" || name == "KBD" || exists i: nat :: i < 16 && name == RegisterName(i)
    ensures Initial().nextVariable == 16
  {
    InitialPointerBindings();
    InitialRegisterBindings();
    InitialDevices();
    InitialKeys();
  }

  lemma InitialDevices()
    ensures "SCREEN" in Initial().table && Initial().table["SCREEN"] == 16384
    ensures "KBD" in Initial().table && Initial().table["KBD"] == 24576
  {
    var regs := BindRegisters(Pointers, RegisterCount);
    assert "SCREEN"[0] != "KBD"[0];
    assert Initial().table == regs["SCREEN" := 16384]["KBD" := 24576];
  }

  lemma InitialPointerBindings()
    ensures forall name :: name in Pointers ==> name in Initial().table && Initial().table[name] == Pointers[name]
  {
    var regs := BindRegisters(Pointers, RegisterCount);
    assert Initial().table == regs["SCREEN" := 16384]["KBD" := 24576];
    BindRegistersBinds(Pointers, RegisterCount);
    forall name | name in Pointers
      ensures name in regs && regs[name] == Pointers[name] && name != "SCREEN" && name != "KBD"
    {
      PointerNameShape(name);
      forall i: nat | i < RegisterCount ensures name != RegisterName(i) {
        RegisterNameShape(i);
      }
    }
  }

  /** No pointer name starts with `R` or is one of the I/O names. */
  lemma PointerNameShape(name: string)
    requires name in Pointers
    ensures |name| >= 2 && name[0] != 'R' && name != "SCREEN" && name != "KBD"
  {
  }

  lemma InitialRegisterBindings()
    ensures forall i: nat :: i < 16 ==> RegisterName(i) in Initial().table && Initial().table[RegisterName(i)] == i
  {
    BindRegistersBinds(Pointers, RegisterCount);
    forall i: nat | i < 16 ensures RegisterName(i) != "SCREEN" && RegisterName(i) != "KBD" {
      RegisterNameShape(i);
    }
  }

  lemma InitialKeys()
    ensures forall name :: name in Initial().table <==>
      name in Pointers || name == "SCREEN" || name == "KBD" || exists i: nat :: i < 16 && name == RegisterName(i)
  {
    BindRegistersBinds(Pointers, RegisterCount);
    forall name
      ensures name in Initial().table <==>
        name in Pointers || name == "SCREEN" || name == "KBD" || exists i: nat :: i < 16 && name == RegisterName(i)
    {
      InitialKey(name);
    }
  }

  /** The I/O names are added on top of the register loop's result. */
  lemma InitialKey(name: string)
    ensures name in Initial().table <==> name in BindRegisters(Pointers, RegisterCount) || name == "SCREEN" || name == "KBD"
  {
  }

  /** The registers by their written names, `R0` and `R15` among them. */
  lemma InitialRegisterSpelling()
    ensures var t := Initial().table;
      "R0" in t && t["R0"] == 0 && "R9" in t && t["R9"] == 9 && "R15" in t && t["R15"] == 15
  {
    InitialRegisterBindings();
    SpellRegister(0, "R0");
    SpellRegister(9, "R9");
    SpellFifteen();
  }

  lemma SpellRegister(i: nat, name: string)
    requires i < 10 && name == ['R', DigitChar(i)]
    ensures RegisterName(i) == name
  {
  }

  lemma SpellFifteen()
    ensures RegisterName(15) == "R15"
  {
    assert Decimal(15) == Decimal(1) + [DigitChar(5)];
  }

  // ---------------------------------------------------------------------------
  // Operations
  // ---------------------------------------------------------------------------

  predicate Contains(st: SymbolTable, symbol: string) {
    symbol in st.table
  }

  /**
    The address bound to `symbol`. Like `operator[]`, an unbound name is bound to 0 first,
    so the lookup also returns the table it leaves behind.
   */
  function GetAddress(st: SymbolTable, symbol: string): (r: (SymbolTable, int))
    ensures Contains(st, symbol) ==> r == (st, st.table[symbol])
    ensures !Contains(st, symbol) ==> r.1 == 0 && Contains(r.0, symbol) && r.0.table[symbol] == 0
    ensures forall k :: k in st.table ==> k in r.0.table && r.0.table[k] == st.table[k]
    ensures r.0.table.Keys == st.table.Keys + {symbol} && r.0.nextVariable == st.nextVariable
  {
    if symbol in st.table then (st, st.table[symbol])
    else (st.(table := st.table[symbol := 0]), 0)
  }

  /** Binds `symbol` to `address`, replacing any earlier binding of that name and no other. */
  function AddEntry(st: SymbolTable, symbol: string, address: int): (r: SymbolTable)
    ensures Contains(r, symbol) && r.table[symbol] == address
    ensures forall k :: k != symbol ==> (k in r.table <==> k in st.table)
    ensures forall k :: k != symbol && k in st.table ==> r.table[k] == st.table[k]
    ensures r.nextVariable == st.nextVariable
  {
    st.(table := st.table[symbol := address])
  }

  /**
    The address of `symbol`, allocating the next variable address if it is unbound: a new
    name gets `nextVariable` and the counter moves on by one; a bound name keeps its address
    and the table is left as it was.
   */
  function AddVariable(st: SymbolTable, symbol: string): (r: (SymbolTable, int))
    ensures Contains(st, symbol) ==> r == (st, st.table[symbol])
    ensures !Contains(st, symbol) ==> r.1 == st.nextVariable && r.0.nextVariable == st.nextVariable + 1
    ensures Contains(r.0, symbol) && r.0.table[symbol] == r.1
    ensures r.0.table.Keys == st.table.Keys + {symbol}
    ensures forall k :: k in st.table ==> r.0.table[k] == st.table[k]
  {
    if symbol in st.table then (st, st.table[symbol])
    else (SymbolTable(st.table[symbol := st.nextVariable], st.nextVariable + 1), st.nextVariable)
  }

  /** Asking for the same variable twice changes nothing the second time and gives the same address. */
  lemma AddVariableIdempotent(st: SymbolTable, symbol: string)
    ensures var (st1, a1) := AddVariable(st, symbol); AddVariable(st1, symbol) == (st1, a1)
  {
  }

  /** A label bound with `AddEntry` is what a later lookup returns. */
  lemma GetAddressAfterAddEntry(st: SymbolTable, symbol: string, address: int)
    ensures GetAddress(AddEntry(st, symbol, address), symbol) == (AddEntry(st, symbol, address), address)
  {
  }
}
