/**
  The line classifier: cleans one source line and classifies it as an A-, C- or L-command,
  or as invalid. A line that cleans to nothing (blank or comment only) yields no command.
 */
module Parser {
  import opened Wrappers
  import opened Text

  /** One classified source line. */
  datatype Command =
    | ACommand(symbol: string)                               // `@symbol`
    | CCommand(dest: string, comp: string, jump: string)     // `dest=comp;jump`
    | LCommand(symbol: string)                               // `(symbol)`
    | InvalidCommand

  /** A- and C-commands become machine instructions; labels and invalid lines do not. */
  predicate IsInstruction(c: Command) {
    c.ACommand? || c.CCommand?
  }

  /** The line cut at its first `//`, with all whitespace removed. */
  function Clean(line: string): (r: string)
    ensures NoSpace(r)
    ensures CommentStart(line).None? ==> r == RemoveSpaces(line)
    ensures CommentStart(line).Some? ==> r == RemoveSpaces(line[..CommentStart(line).value])
  {
    match CommentStart(line)
    case None => RemoveSpaces(line)
    case Some(i) => RemoveSpaces(line[..i])
  }

  /**
    Splits a C-command into dest, comp and jump at the first `=` and the first `;` of the
    whole line. When there is an `=`, comp runs from after it for `semi - eq - 1` characters;
    that count is computed in `size_t`, so when the `;` is missing or comes before the `=`
    it wraps around and comp runs to the end of the line.
   */
  function SplitCompute(s: string): (r: (string, string, string))
    ensures '=' !in s ==> r.0 == ""
    ensures ';' !in s ==> r.2 == ""
  {
    var eq := IndexOf(s, '=');
    var semi := IndexOf(s, ';');
    var dest := if eq.Some? then s[..eq.value] else "";
    var comp :=
      if eq.Some? then
        if semi.Some? && semi.value > eq.value then s[eq.value + 1 .. semi.value] else s[eq.value + 1 ..]
      else if semi.Some? then s[..semi.value]
      else s;
    var jump := if semi.Some? then s[semi.value + 1 ..] else "";
    (dest, comp, jump)
  }

  /** Classifies a cleaned, non-empty line by its first and last characters and its operators. */
  function ParseCommand(s: string): (c: Command)
    requires s != ""
    ensures c.ACommand? <==> s[0] == '@'
    ensures c.ACommand? ==> s == "@" + c.symbol
    ensures c.LCommand? <==> s[0] == '(' && s[|s| - 1] == ')'
    ensures c.LCommand? ==> s == "(" + c.symbol + ")"
    ensures c.CCommand? <==> s[0] != '@' && !(s[0] == '(' && s[|s| - 1] == ')') && ('=' in s || ';' in s)
    ensures c.CCommand? ==> (c.dest, c.comp, c.jump) == SplitCompute(s)
    ensures c.InvalidCommand? <==> s[0] != '@' && !(s[0] == '(' && s[|s| - 1] == ')') && '=' !in s && ';' !in s
  {
    if s[0] == '@' then
      assert s == "@" + s[1..];
      ACommand(s[1..])
    else if s[0] == '(' && s[|s| - 1] == ')' then
      assert s == "(" + s[1..|s| - 1] + ")";
      LCommand(s[1..|s| - 1])
    else if '=' in s || ';' in s then
      var (dest, comp, jump) := SplitCompute(s);
      CCommand(dest, comp, jump)
    else
      InvalidCommand
  }

  /** Reads one source line: None when it holds nothing but whitespace and comments. */
  function ParseLine(line: string): (r: Option<Command>)
    ensures r.None? <==> Clean(line) == ""
    ensures r.Some? ==> r.value == ParseCommand(Clean(line))
  {
    var s := Clean(line);
    if s == "" then None else Some(ParseCommand(s))
  }

  /** Whatever follows a `//` has no effect on how a line reads. */
  lemma CommentIgnored(line: string, comment: string)
    requires CommentStart(line).None?
    requires |line| == 0 || line[|line| - 1] != '/'
    ensures ParseLine(line + "//" + comment) == ParseLine(line)
  {
    var t := line + "//" + comment;
    assert t[..|line|] == line;
    assert t[|line|] == '/' && t[|line| + 1] == '/';
    forall j: nat | j < |line|
      ensures !CommentAt(t, j)
    {
      assert t[j] == line[j];
      if j + 1 < |line| {
        assert t[j + 1] == line[j + 1];
        assert !CommentAt(line, j);
      }
    }
    var k := CommentStart(t);
    assert k.Some? && k.value == |line| by {
      assert CommentAt(t, |line|);
    }
    assert Clean(t) == Clean(line);
  }

  // ---------------------------------------------------------------------------
  // The C-command split on well-formed input
  // ---------------------------------------------------------------------------

  /** Neither `=` nor `;` occurs in the field. */
  predicate NoOperator(s: string) {
    '=' !in s && ';' !in s
  }

  /** `dest=comp;jump` splits back into its three fields. */
  lemma SplitFull(dest: string, comp: string, jump: string)
    requires NoOperator(dest) && NoOperator(comp) && ';' !in jump
    ensures SplitCompute(dest + "=" + comp + ";" + jump) == (dest, comp, jump)
  {
    var head := dest + "=" + comp;
    var s := head + (";" + jump);
    EqualsFirst(dest, comp, jump);
    NoSemicolonInHead(dest, comp);
    IndexOfAfter(head, ";" + jump, ';');
    SplitAt(s, |dest|, |head|);
    assert s == dest + "=" + comp + ";" + jump;
    assert s[..|dest|] == dest;
    assert s[|dest| + 1 .. |head|] == comp;
    assert s[|head| + 1 ..] == jump;
  }

  lemma EqualsFirst(dest: string, comp: string, jump: string)
    requires '=' !in dest
    ensures IndexOf(dest + "=" + comp + (";" + jump), '=') == Some(|dest|)
  {
    assert dest + "=" + comp + (";" + jump) == dest + ("=" + comp + ";" + jump);
    IndexOfAfter(dest, "=" + comp + ";" + jump, '=');
  }

  lemma NoSemicolonInHead(dest: string, comp: string)
    requires ';' !in dest && ';' !in comp
    ensures ';' !in dest + "=" + comp
  {
    assert ';' !in "=";
  }

  /** With `=` at `e` and the first `;` after it at `m`, the three fields are the slices between. */
  lemma SplitAt(s: string, e: nat, m: nat)
    requires IndexOf(s, '=') == Some(e) && IndexOf(s, ';') == Some(m) && e < m
    ensures SplitCompute(s) == (s[..e], s[e + 1 .. m], s[m + 1 ..])
  {
    var (dest, comp, jump) := SplitCompute(s);
    assert dest == s[..e] && comp == s[e + 1 .. m] && jump == s[m + 1 ..];
  }

  /** With `;` at `m` and no `=`, dest is empty, comp runs up to the `;` and jump is all after it. */
  lemma SplitNoEquals(s: string, m: nat)
    requires IndexOf(s, '=').None? && IndexOf(s, ';') == Some(m)
    ensures SplitCompute(s) == ("", s[..m], s[m + 1 ..])
  {
  }

  /** With `=` at `e` and no `;`, dest runs up to the `=`, comp is all after it and jump is empty. */
  lemma SplitNoSemicolon(s: string, e: nat)
    requires IndexOf(s, ';').None? && IndexOf(s, '=') == Some(e)
    ensures SplitCompute(s) == (s[..e], s[e + 1 ..], "")
  {
  }

  /** `dest=comp` splits into dest, comp and an empty jump. */
  lemma SplitNoJump(dest: string, comp: string)
    requires NoOperator(dest) && ';' !in comp
    ensures SplitCompute(dest + "=" + comp) == (dest, comp, "")
  {
    var s := dest + "=" + comp;
    IndexOfAfter(dest, "=" + comp, '=');
    assert s == dest + ("=" + comp);
    assert ';' !in s;
    assert s[..|dest|] == dest;
    assert s[|dest| + 1 ..] == comp;
  }

  /** `comp;jump` splits into an empty dest, comp and jump. */
  lemma SplitNoDest(comp: string, jump: string)
    requires NoOperator(comp) && NoOperator(jump)
    ensures SplitCompute(comp + ";" + jump) == ("", comp, jump)
  {
    var s := comp + ";" + jump;
    assert '=' !in s;
    IndexOfAfter(comp, ";" + jump, ';');
    assert s == comp + (";" + jump);
    assert s[..|comp|] == comp;
    assert s[|comp| + 1 ..] == jump;
  }

  /**
    When the first `;` comes before the first `=`, the split is not the one the syntax means:
    the `=` is still taken as the end of dest, so dest swallows the `;`; the length of comp
    wraps around, so comp runs to the end of the line; and jump swallows the `=`.
   */
  lemma SplitSemicolonBeforeEquals(s: string, m: nat, e: nat)
    requires IndexOf(s, ';') == Some(m) && IndexOf(s, '=') == Some(e) && m < e
    ensures SplitCompute(s) == (s[..e], s[e + 1 ..], s[m + 1 ..])
  {
  }

  /** For example `0;JMP=D` splits into dest `0;JMP`, comp `D` and jump `JMP=D`. */
  lemma SplitSemicolonFirst()
    ensures SplitCompute("0;JMP=D") == ("0;JMP", "D", "JMP=D")
  {
    var s := "0;JMP=D";
    assert s[0] != '=' && s[1] == ';';
    assert s[..5] == "0;JMP" && s[5] == '=';
    assert IndexOf(s, ';') == Some(1);
    assert IndexOf(s, '=') == Some(5);
  }

  /** The first occurrence of `c` in `a + [c] + b` is just after `a` when `a` lacks `c`. */
  lemma IndexOfAfter(a: string, b: string, c: char)
    requires c !in a && |b| > 0 && b[0] == c
    ensures IndexOf(a + b, c) == Some(|a|)
  {
    var s := a + b;
    assert s[|a|] == c;
    assert forall k :: 0 <= k < |a| ==> s[k] == a[k];
    assert forall j :: |a| < j <= |s| ==> s[..j][|a|] == c;
  }

  // ---------------------------------------------------------------------------
  // Rendering commands back to assembly text
  // ---------------------------------------------------------------------------

  /** The canonical assembly text of a command. */
  function Render(c: Command): string {
    match c
    case ACommand(symbol) => "@" + symbol
    case LCommand(symbol) => "(" + symbol + ")"
    case CCommand(dest, comp, jump) =>
      (if dest == "" then "" else dest + "=") + comp + (if jump == "" then "" else ";" + jump)
    case InvalidCommand => ""
  }

  /** A character that may appear in a symbol or a mnemonic without changing how its line reads. */
  predicate PlainChar(ch: char) {
    !IsSpace(ch) && ch != '/'
  }

  predicate Plain(s: string) {
    forall i :: 0 <= i < |s| ==> PlainChar(s[i])
  }

  /** A mnemonic field: plain characters, no operator, and no `@` or `(` in front. */
  predicate MnemonicField(s: string) {
    Plain(s) && NoOperator(s) && (s != "" ==> s[0] != '@' && s[0] != '(')
  }

  /** The commands whose canonical text reads back as themselves. */
  predicate WellFormed(c: Command) {
    match c
    case ACommand(symbol) => Plain(symbol)
    case LCommand(symbol) => Plain(symbol)
    case CCommand(dest, comp, jump) =>
      MnemonicField(dest) && MnemonicField(comp) && MnemonicField(jump)
      && (dest != "" || jump != "")
      && (dest == "" ==> comp != "")
    case InvalidCommand => false
  }

  /** A plain string has no comment marker and no whitespace, so cleaning leaves it alone. */
  lemma CleanPlain(s: string)
    requires Plain(s)
    ensures Clean(s) == s
  {
    assert forall i: nat :: i < |s| ==> PlainChar(s[i]);
    assert NoSpace(s);
    RemoveSpacesFixpoint(s);
  }

  /** Every well-formed command reads back from its canonical text. */
  lemma ParseRender(c: Command)
    requires WellFormed(c)
    ensures ParseLine(Render(c)) == Some(c)
  {
    match c
    case ACommand(symbol) => ParseRenderA(symbol);
    case LCommand(symbol) => ParseRenderL(symbol);
    case CCommand(dest, comp, jump) => ParseRenderC(dest, comp, jump);
  }

  lemma ParseRenderA(symbol: string)
    requires Plain(symbol)
    ensures ParseLine("@" + symbol) == Some(ACommand(symbol))
  {
    var s := "@" + symbol;
    assert Plain(s);
    CleanPlain(s);
  }

  lemma ParseRenderL(symbol: string)
    requires Plain(symbol)
    ensures ParseLine("(" + symbol + ")") == Some(LCommand(symbol))
  {
    var s := "(" + symbol + ")";
    assert s[0] == '(' && s[|s| - 1] == ')';
    assert s[1..|s| - 1] == symbol;
    assert Plain(s);
    CleanPlain(s);
  }

  lemma ParseRenderC(dest: string, comp: string, jump: string)
    requires WellFormed(CCommand(dest, comp, jump))
    ensures ParseLine(Render(CCommand(dest, comp, jump))) == Some(CCommand(dest, comp, jump))
  {
    var s := Render(CCommand(dest, comp, jump));
    if dest != "" && jump != "" {
      assert s == dest + "=" + comp + ";" + jump;
      ParseFull(dest, comp, jump);
    } else if dest != "" {
      assert s == dest + "=" + comp;
      ParseNoJump(dest, comp);
    } else {
      assert s == comp + ";" + jump;
      ParseNoDest(comp, jump);
    }
  }

  lemma ParseFull(dest: string, comp: string, jump: string)
    requires MnemonicField(dest) && MnemonicField(comp) && MnemonicField(jump) && dest != ""
    ensures ParseLine(dest + "=" + comp + ";" + jump) == Some(CCommand(dest, comp, jump))
  {
    var s := dest + "=" + comp + ";" + jump;
    SplitFull(dest, comp, jump);
    assert s[0] == dest[0];
    assert Plain(s);
    ReadsAsCompute(s);
  }

  lemma ParseNoJump(dest: string, comp: string)
    requires MnemonicField(dest) && MnemonicField(comp) && dest != ""
    ensures ParseLine(dest + "=" + comp) == Some(CCommand(dest, comp, ""))
  {
    var s := dest + "=" + comp;
    SplitNoJump(dest, comp);
    assert s[0] == dest[0];
    assert Plain(s);
    ReadsAsCompute(s);
  }

  lemma ParseNoDest(comp: string, jump: string)
    requires MnemonicField(comp) && MnemonicField(jump) && comp != ""
    ensures ParseLine(comp + ";" + jump) == Some(CCommand("", comp, jump))
  {
    var s := comp + ";" + jump;
    SplitNoDest(comp, jump);
    assert s[0] == comp[0];
    assert Plain(s);
    ReadsAsCompute(s);
  }

  /** A plain line that starts like a mnemonic and holds an operator reads as a C-command. */
  lemma ReadsAsCompute(s: string)
    requires Plain(s) && s != "" && s[0] != '@' && s[0] != '(' && ('=' in s || ';' in s)
    ensures ParseLine(s) == Some(CCommand(SplitCompute(s).0, SplitCompute(s).1, SplitCompute(s).2))
  {
    CleanPlain(s);
  }
}
