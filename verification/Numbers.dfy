/** Printing 32-bit numbers (kernel/core/stdio.c) and reading them back (kernel/core/shell.c). */
module Numbers {
  import opened Basics

  const HALF := 0x8000_0000

  /** `long` is 32 bits wide. */
  type Long = n: int | -0x8000_0000 <= n < 0x8000_0000

  predicate Base(base: nat) {
    base == 10 || base == 16
  }

  // ---- Printing ----

  function DigitChar(d: nat): char
    requires d < 16
  {
    "0123456789abcdef"[d]
  }

  /** All digits but the last, and the last. */
  function Rest(u: nat, base: nat): (q: nat)
    requires Base(base)
    ensures q <= u && (u > 0 ==> q < u)
  {
    if base == 10 then u / 10 else u / 16
  }

  function Last(u: nat, base: nat): (d: nat)
    requires Base(base)
    ensures d < base && Rest(u, base) * base + d == u
  {
    if base == 10 then u % 10 else u % 16
  }

  /** Most significant digit first. */
  function Digits(u: nat, base: nat): (s: string)
    requires Base(base)
    ensures s != []
  {
    (if Rest(u, base) > 0 then Digits(Rest(u, base), base) else []) + [DigitChar(Last(u, base))]
  }

  /** Two's complement. */
  function AsLong(w: Word): Long {
    if w < HALF then w else w - WRAP
  }

  function AsWord(n: Long): Word {
    if n >= 0 then n else n + WRAP
  }

  /** The magnitude of a negative number. */
  function Negated(n: Long): (w: Word)
    requires n < 0
    ensures w + n == 0
  {
    WRAP - AsWord(n)
  }

  /** kernel_print_integer. */
  function Printed(n: Long, base: nat): string
    requires Base(base)
  {
    if base == 10 && n < 0 then ['-'] + Digits(Negated(n), base) else Digits(AsWord(n), base)
  }

  /** Both output channels receive every character. */
  class Output {
    var terminal: string
    var serial: string

    constructor ()
      ensures terminal == [] && serial == []
    {
      terminal, serial := [], [];
    }

    method PutChar(c: char)
      modifies this
      ensures terminal == old(terminal) + [c] && serial == old(serial) + [c]
    {
      terminal := terminal + [c];
      serial := serial + [c];
    }

    /** The negation of the smallest number wraps to itself; taken as unsigned it is the right magnitude. */
    method PrintInteger(n: Long, base: nat) returns (count: nat)
      requires Base(base)
      modifies this
      ensures terminal == old(terminal) + Printed(n, base) && serial == old(serial) + Printed(n, base)
      ensures count == |Printed(n, base)|
      decreases base == 10 && n < 0, AsWord(n)
    {
      hide Digits, Rest, Last, DigitChar;
      count := 0;
      var un := AsWord(n);
      if base == 10 && n < 0 {
        PutChar('-');
        un := WRAP - un;
        count := 1;
      }
      DigitsStep(un, base);
      if Rest(un, base) > 0 {
        BelowHalf(un, base);
        var more := PrintInteger(Rest(un, base), base);
        count := count + more;
      }
      PutChar(DigitChar(Last(un, base)));
      count := count + 1;
    }
  }

  lemma DigitsStep(u: nat, base: nat)
    requires Base(base)
    ensures var front := if Rest(u, base) > 0 then Digits(Rest(u, base), base) else [];
      Digits(u, base) == front + [DigitChar(Last(u, base))]
  {
  }

  lemma BelowHalf(un: Word, base: nat)
    requires Base(base)
    ensures Rest(un, base) < HALF
  {
  }

  // ---- Parsing ----

  /** The value of a digit, 16 for any other character. */
  function DigitValue(c: char): (d: nat)
    ensures d <= 16
  {
    if '0' <= c <= '9' then (c - '0') as nat
    else if 'a' <= c <= 'f' then 10 + (c - 'a') as nat
    else if 'A' <= c <= 'F' then 10 + (c - 'A') as nat
    else 16
  }

  predicate IsNumeral(s: string, base: nat) {
    s != [] && forall i :: 0 <= i < |s| ==> DigitValue(s[i]) < base
  }

  /** The positional value of a digit string, unbounded. */
  function Value(s: string, base: nat): nat {
    if s == [] then 0 else Value(s[..|s| - 1], base) * base + DigitValue(s[|s| - 1])
  }

  predicate HexPrefix(s: string) {
    |s| >= 2 && s[0] == '0' && (s[1] == 'x' || s[1] == 'X')
  }

  function BaseOf(s: string): nat {
    if HexPrefix(s) then 16 else 10
  }

  function Body(s: string): string {
    if HexPrefix(s) then s[2..] else s
  }

  /** parse_u32: a numeral's value modulo 2^32, everything else is refused. */
  function Parsed(s: string): Option<Word> {
    if IsNumeral(Body(s), BaseOf(s)) then Some(Value(Body(s), BaseOf(s)) % WRAP) else None
  }

  method ParseU32(s: string) returns (r: Option<Word>)
    ensures r == Parsed(s)
  {
    hide Push, DigitValue;
    var base, t := 10, s;
    if |s| >= 2 && s[0] == '0' && (s[1] == 'x' || s[1] == 'X') { base, t := 16, s[2..]; }
    if t == [] { return None; }
    var v: Word := 0;
    for i := 0 to |t|
      invariant v == Value(t[..i], base) % WRAP
      invariant forall j :: 0 <= j < i ==> DigitValue(t[j]) < base
    {
      var d := DigitValue(t[i]);
      if d >= base { return None; }
      assert t[..i + 1][..i] == t[..i];
      Accumulate(Value(t[..i], base), base, d);
      v := Push(v, base, d);
    }
    assert t[..|t|] == t;
    return Some(v);
  }

  /** `v * base + d` in 32 bits. */
  function Push(v: Word, base: nat, d: nat): Word {
    (v * base + d) % WRAP
  }

  lemma Accumulate(value: nat, base: nat, d: nat)
    requires Base(base)
    ensures Push(value % WRAP, base, d) == (value * base + d) % WRAP
  {
    var q, r := value / WRAP, value % WRAP;
    if base == 10 {
      WholeWraps(10 * q, 10 * r + d);
    } else {
      WholeWraps(16 * q, 16 * r + d);
    }
  }

  lemma WholeWraps(k: nat, x: nat)
    ensures (WRAP * k + x) % WRAP == x % WRAP
  {
  }

  // ---- Round trips ----

  lemma DigitRoundTrip(d: nat)
    requires d < 16
    ensures DigitValue(DigitChar(d)) == d && DigitChar(d) !in {'x', 'X', '-'}
  {
  }

  /** The printed digits are a numeral of the number, without a leading zero. */
  lemma {:induction false} DigitsValue(u: nat, base: nat)
    requires Base(base)
    ensures IsNumeral(Digits(u, base), base) && Value(Digits(u, base), base) == u
    ensures forall i :: 0 <= i < |Digits(u, base)| ==> Digits(u, base)[i] !in {'x', 'X', '-'}
    ensures Digits(u, base)[0] == '0' ==> u == 0
    decreases u
  {
    hide DigitChar, DigitValue, Rest, Last;
    var s, q := Digits(u, base), Rest(u, base);
    DigitRoundTrip(Last(u, base));
    if q > 0 {
      DigitsValue(q, base);
      assert s[..|s| - 1] == Digits(q, base);
      assert s[0] == Digits(q, base)[0];
    } else {
      assert s[..|s| - 1] == [];
      if s[0] == '0' { ZeroDigit(Last(u, base)); }
    }
  }

  lemma ZeroDigit(d: nat)
    requires d < 16 && DigitChar(d) == '0'
    ensures d == 0
  {
  }

  /** Every 32-bit value printed in hexadecimal reads back as itself. */
  lemma HexRoundTrip(v: Word)
    ensures Parsed("0x" + Printed(AsLong(v), 16)) == Some(v)
  {
    hide Digits, DigitValue, Value;
    DigitsValue(v, 16);
    var s := "0x" + Digits(v, 16);
    assert s[2..] == Digits(v, 16);
  }

  function Upper(s: string): (u: string)
    ensures |u| == |s|
    ensures forall i :: 0 <= i < |s| ==> u[i] == if 'a' <= s[i] <= 'f' then s[i] - 'a' + 'A' else s[i]
  {
    seq(|s|, i requires 0 <= i < |s| => if 'a' <= s[i] <= 'f' then s[i] - 'a' + 'A' else s[i])
  }

  lemma {:induction false} UpperValue(s: string, base: nat)
    ensures Value(Upper(s), base) == Value(s, base)
    ensures forall i :: 0 <= i < |s| ==> DigitValue(Upper(s)[i]) == DigitValue(s[i])
  {
    if s != [] {
      UpperValue(s[..|s| - 1], base);
      assert Upper(s)[..|s| - 1] == Upper(s[..|s| - 1]);
    }
  }

  /** And it does so in capital letters. */
  lemma UpperRoundTrip(v: Word)
    ensures Parsed("0X" + Upper(Printed(AsLong(v), 16))) == Some(v)
  {
    hide Digits, DigitValue, Value;
    DigitsValue(v, 16);
    var d := Digits(v, 16);
    UpperValue(d, 16);
    assert ("0X" + Upper(d))[2..] == Upper(d);
  }

  /** In decimal exactly the values below 2^31 do; from there on the output starts with a minus sign, which
      is refused. */
  lemma DecimalRoundTrip(v: Word)
    ensures Parsed(Printed(AsLong(v), 10)) == Some(v) <==> v < HALF
    ensures v >= HALF ==> Parsed(Printed(AsLong(v), 10)) == None
  {
    hide Digits, Value;
    if v < HALF {
      DigitsValue(v, 10);
      assert !HexPrefix(Digits(v, 10));
    } else {
      var s := Printed(AsLong(v), 10);
      assert DigitValue(s[0]) == 16;
    }
  }

  /** A signed number's decimal output is its sign and its magnitude. */
  lemma SignedDecimal(n: Long)
    ensures var s := Printed(n, 10);
      if n < 0 then s[0] == '-' && IsNumeral(s[1..], 10) && Value(s[1..], 10) == Negated(n)
      else IsNumeral(s, 10) && Value(s, 10) == n
  {
    hide Digits, Value, DigitValue;
    if n < 0 {
      DigitsValue(Negated(n), 10);
      assert Printed(n, 10)[1..] == Digits(Negated(n), 10);
    } else {
      DigitsValue(n, 10);
    }
  }

  /** Two numbers print alike only when they are the same. */
  lemma PrintedInjective(a: Long, b: Long, base: nat)
    requires Base(base) && Printed(a, base) == Printed(b, base)
    ensures a == b
  {
    hide Digits, Value;
    if base == 10 {
      SignedDecimal(a);
      SignedDecimal(b);
    } else {
      DigitsValue(AsWord(a), base);
      DigitsValue(AsWord(b), base);
    }
  }
}
