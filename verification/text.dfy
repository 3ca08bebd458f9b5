/** Character classes, searching, and the decimal and binary renderings the assembler relies on. */
module Text {
  import opened Wrappers

  /** The characters the C locale's `isspace` accepts: space, tab, newline, vertical tab, form feed, carriage return. */
  predicate IsSpace(c: char) {
    c == ' ' || c == '\t' || c == '\n' || c == '\U{B}' || c == '\U{C}' || c == '\r'
  }

  /** The characters the C locale's `isdigit` accepts. */
  predicate IsDigit(c: char) {
    '0' <= c <= '9'
  }

  predicate NoSpace(s: string) {
    forall i :: 0 <= i < |s| ==> !IsSpace(s[i])
  }

  predicate AllDigits(s: string) {
    forall i :: 0 <= i < |s| ==> IsDigit(s[i])
  }

  predicate IsBits(s: string) {
    forall i :: 0 <= i < |s| ==> s[i] == '0' || s[i] == '1'
  }

  // ---------------------------------------------------------------------------
  // Whitespace removal (the `erase(remove_if(..., ::isspace))` idiom)
  // ---------------------------------------------------------------------------

  /** Keeps the characters of `s` that are not whitespace, in order. */
  function RemoveSpaces(s: string): (r: string)
    ensures NoSpace(r)
    ensures |r| <= |s|
  {
    if |s| == 0 then ""
    else
      assert s == [s[0]] + s[1..];
      (if IsSpace(s[0]) then "" else [s[0]]) + RemoveSpaces(s[1..])
  }

  /** Whitespace removal keeps every other character, as many times as it occurs. */
  lemma {:induction false} RemoveSpacesKeeps(s: string)
    ensures forall c :: !IsSpace(c) ==> multiset(RemoveSpaces(s))[c] == multiset(s)[c]
    ensures forall c :: IsSpace(c) ==> c !in RemoveSpaces(s)
  {
    if |s| > 0 {
      RemoveSpacesKeeps(s[1..]);
      assert s == [s[0]] + s[1..];
      assert multiset(s) == multiset{s[0]} + multiset(s[1..]);
    }
  }

  /** Removing whitespace from a string that has none leaves it unchanged, so the operation is idempotent. */
  lemma {:induction false} RemoveSpacesFixpoint(s: string)
    requires NoSpace(s)
    ensures RemoveSpaces(s) == s
  {
    if |s| > 0 {
      RemoveSpacesFixpoint(s[1..]);
    }
  }

  /** Whitespace removal works piecewise: it distributes over concatenation. */
  lemma {:induction false} RemoveSpacesAppend(a: string, b: string)
    ensures RemoveSpaces(a + b) == RemoveSpaces(a) + RemoveSpaces(b)
  {
    if |a| == 0 {
      assert a + b == b;
    } else {
      var ab := a + b;
      var head := if IsSpace(a[0]) then "" else [a[0]];
      assert ab[0] == a[0] && ab[1..] == a[1..] + b;
      assert RemoveSpaces(ab) == head + RemoveSpaces(a[1..] + b);
      RemoveSpacesAppend(a[1..], b);
      assert RemoveSpaces(a) == head + RemoveSpaces(a[1..]);
    }
  }

  // ---------------------------------------------------------------------------
  // Searching (`std::string::find`)
  // ---------------------------------------------------------------------------

  /** The index of the first occurrence of `c` in `s`, or None (`npos`) when there is none. */
  function IndexOf(s: string, c: char): (r: Option<nat>)
    ensures r.Some? ==> r.value < |s| && s[r.value] == c && c !in s[..r.value]
    ensures r.None? <==> c !in s
  {
    if |s| == 0 then None
    else if s[0] == c then Some(0)
    else
      var rest := IndexOf(s[1..], c);
      assert s == [s[0]] + s[1..];
      if rest.None? then None
      else
        assert s[..rest.value + 1] == [s[0]] + s[1..][..rest.value];
        Some(rest.value + 1)
  }

  /** Two consecutive slashes start at index `i` of `s`. */
  predicate CommentAt(s: string, i: nat) {
    i + 1 < |s| && s[i] == '/' && s[i + 1] == '/'
  }

  /** The index of the first `//` in `s` at or after `from`, or None when there is none. */
  function CommentFrom(s: string, from: nat): (r: Option<nat>)
    ensures r.Some? ==> from <= r.value && CommentAt(s, r.value)
    ensures r.Some? ==> forall j: nat :: from <= j < r.value ==> !CommentAt(s, j)
    ensures r.None? ==> forall j: nat :: from <= j ==> !CommentAt(s, j)
    decreases |s| - from
  {
    if from + 1 >= |s| then None
    else if CommentAt(s, from) then Some(from)
    else CommentFrom(s, from + 1)
  }

  /** The index of the first `//` in `s` (`find("//")`), or None when there is none. */
  function CommentStart(s: string): (r: Option<nat>)
    ensures r.Some? ==> CommentAt(s, r.value) && forall j: nat :: j < r.value ==> !CommentAt(s, j)
    ensures r.None? <==> forall j: nat :: !CommentAt(s, j)
  {
    CommentFrom(s, 0)
  }

  // ---------------------------------------------------------------------------
  // Decimal numerals (`std::to_string` and `std::stoi`)
  // ---------------------------------------------------------------------------

  function DigitValue(c: char): nat
    requires IsDigit(c)
  {
    c as int - '0' as int
  }

  function DigitChar(d: nat): (c: char)
    requires d < 10
    ensures IsDigit(c) && DigitValue(c) == d
  {
    (d + '0' as int) as char
  }

  /** The value of a numeral written with the most significant digit first. */
  function DecimalValue(s: string): nat
    requires AllDigits(s)
  {
    if |s| == 0 then 0 else 10 * DecimalValue(s[..|s| - 1]) + DigitValue(s[|s| - 1])
  }

  /** The shortest decimal numeral of `n` (`std::to_string`); reading it back gives `n`. */
  function Decimal(n: nat): (s: string)
    ensures 0 < |s| && AllDigits(s)
    ensures DecimalValue(s) == n
    ensures |s| > 1 ==> s[0] != '0'
  {
    if n < 10 then [DigitChar(n)]
    else
      var prefix := Decimal(n / 10);
      var s := prefix + [DigitChar(n % 10)];
      assert s[..|s| - 1] == prefix;
      s
  }

  /** The length of the run of digits that starts `s`. */
  function DigitRun(s: string): (k: nat)
    ensures k <= |s| && AllDigits(s[..k])
    ensures k < |s| ==> !IsDigit(s[k])
  {
    if |s| == 0 || !IsDigit(s[0]) then 0
    else
      var k := 1 + DigitRun(s[1..]);
      assert s[..k] == [s[0]] + s[1..][..k - 1];
      k
  }

  /** What `std::stoi` returns for a string that starts with a digit: the value of its leading digit run. */
  function LeadingNumber(s: string): nat {
    DecimalValue(s[..DigitRun(s)])
  }

  /** `std::stoi` reads back what `std::to_string` wrote, whatever non-digit text follows. */
  lemma LeadingNumberOfDecimal(n: nat, rest: string)
    requires |rest| == 0 || !IsDigit(rest[0])
    ensures LeadingNumber(Decimal(n) + rest) == n
  {
    var d := Decimal(n);
    DigitRunOfDigits(d, rest);
    assert (d + rest)[..|d|] == d;
  }

  lemma {:induction false} DigitRunOfDigits(d: string, rest: string)
    requires AllDigits(d)
    requires |rest| == 0 || !IsDigit(rest[0])
    ensures DigitRun(d + rest) == |d|
  {
    if |d| == 0 {
      assert d + rest == rest;
    } else {
      assert (d + rest)[1..] == d[1..] + rest;
      DigitRunOfDigits(d[1..], rest);
    }
  }

  /** Distinct numbers have distinct numerals, so names built from them (`R0` .. `R15`) are distinct. */
  lemma DecimalInjective(m: nat, n: nat)
    requires m != n
    ensures Decimal(m) != Decimal(n)
  {
  }

  // ---------------------------------------------------------------------------
  // Fixed-width binary (`std::bitset<w>::to_string`)
  // ---------------------------------------------------------------------------

  function Pow2(w: nat): (p: nat)
    ensures p >= 1
  {
    if w == 0 then 1 else 2 * Pow2(w - 1)
  }

  /** The value of a bit string written with the most significant bit first. */
  function BinaryValue(s: string): nat
    requires IsBits(s)
  {
    if |s| == 0 then 0 else 2 * BinaryValue(s[..|s| - 1]) + (if s[|s| - 1] == '1' then 1 else 0)
  }

  /** The `w`-character big-endian binary rendering of `n`; reading it back gives `n`. */
  function Binary(n: nat, w: nat): (s: string)
    requires n < Pow2(w)
    ensures |s| == w && IsBits(s)
    ensures BinaryValue(s) == n
  {
    if w == 0 then ""
    else
      var prefix := Binary(n / 2, w - 1);
      var s := prefix + [if n % 2 == 1 then '1' else '0'];
      assert s[..|s| - 1] == prefix;
      s
  }

  /** Bit strings of one width are determined by their value: `Binary` is the only rendering. */
  lemma {:induction false} BinaryOfValue(s: string)
    requires IsBits(s)
    ensures BinaryValue(s) < Pow2(|s|)
    ensures Binary(BinaryValue(s), |s|) == s
  {
    if |s| > 0 {
      var p := s[..|s| - 1];
      BinaryOfValue(p);
      assert s == p + [s[|s| - 1]];
    }
  }
}
