/**
 Host values that can appear in the dynamic positions of an `html` tagged
 template, JavaScript's `String(value)` conversion for them, and the chunk the
 `html` generator yields for one value (the `switch (typeof value)` of index.js).

 The host language is dynamically typed; here its values are a closed datatype.
 Conversions that run user code (objects, arrays, functions) and those the
 engine formats itself (bigints, non-integer numbers) are carried as the text
 the host produced.
 */
module JsValues {

  /** Largest `n` such that every integer of magnitude up to `n` is exactly
      representable as a JavaScript number (`Number.MAX_SAFE_INTEGER`, 2^53 - 1). */
  const MaxSafeInteger: int := 0x1F_FFFF_FFFF_FFFF

  /** The integers modelled with their exact decimal `String()` form. */
  type SafeInteger = n: int | -MaxSafeInteger <= n <= MaxSafeInteger

  datatype Option<+T> = None | Some(value: T)

  /** One thing the generator yields: a string, or `undefined`. */
  datatype Chunk = Text(text: string) | Missing

  /** A dynamic template value, classified by its JavaScript `typeof`. */
  datatype Value =
    | Sym(description: Option<string>)   // `Symbol(d)`; `Symbol()` has no description
    | Str(s: string)
    | Num(n: SafeInteger)
    | Bool(b: bool)
    | Null
    | Undefined
    | Other(repr: string)                // any other value, with the text its String() gives

  // ---------------------------------------------------------------------------
  // Decimal text of integers

  predicate IsDigit(c: char) {
    '0' <= c <= '9'
  }

  predicate IsDigits(s: string) {
    forall i :: 0 <= i < |s| ==> IsDigit(s[i])
  }

  function DigitChar(d: nat): (c: char)
    requires d < 10
    ensures IsDigit(c) && c as int - '0' as int == d
  {
    ('0' as int + d) as char
  }

  /** Shortest decimal text of a natural number: digits only, no leading zero. */
  function NatToDecimal(n: nat): (s: string)
    ensures 1 <= |s| && IsDigits(s)
    ensures s[0] == '0' ==> n == 0 && s == "0"
    decreases n
  {
    if n < 10 then [DigitChar(n)] else NatToDecimal(n / 10) + [DigitChar(n % 10)]
  }

  /** The number a string of decimal digits denotes (the reading of NatToDecimal). */
  function DecimalValue(s: string): nat
    requires IsDigits(s)
    decreases |s|
  {
    if |s| == 0 then 0 else DecimalValue(s[..|s| - 1]) * 10 + (s[|s| - 1] as int - '0' as int)
  }

  lemma {:induction false} NatDecimalRoundTrip(n: nat)
    ensures DecimalValue(NatToDecimal(n)) == n
    decreases n
  {
    if n >= 10 {
      var s := NatToDecimal(n / 10);
      var t := s + [DigitChar(n % 10)];
      assert t[..|t| - 1] == s;
      NatDecimalRoundTrip(n / 10);
    }
  }

  /** `String(n)` for a safe integer: optional minus sign, then the shortest decimal digits. */
  function IntToDecimal(n: int): (s: string)
    ensures |s| >= 1
    ensures s[0] == '-' <==> n < 0
    ensures n < 0 ==> IsDigits(s[1..]) && |s| >= 2 && s[1] != '0'
    ensures n >= 0 ==> IsDigits(s)
    ensures s[0] == '0' ==> n == 0 && s == "0"
  {
    if n < 0 then "-" + NatToDecimal(-n) else NatToDecimal(n)
  }

  /** Decimal text of an integer: digits, optionally after a minus sign. */
  predicate IsDecimalText(s: string) {
    (|s| > 0 && s[0] == '-' && IsDigits(s[1..])) || IsDigits(s)
  }

  /** Reads back the text IntToDecimal produces. */
  function ParseInt(s: string): int
    requires IsDecimalText(s)
  {
    if |s| > 0 && s[0] == '-' then -(DecimalValue(s[1..]) as int) else DecimalValue(s)
  }

  lemma IntDecimalRoundTrip(n: int)
    ensures var s := IntToDecimal(n);
            IsDecimalText(s) && ParseInt(s) == n
  {
    if n < 0 {
      var s := IntToDecimal(n);
      assert s[1..] == NatToDecimal(-n);
      NatDecimalRoundTrip(-n);
    } else {
      NatDecimalRoundTrip(n);
    }
  }

  // ---------------------------------------------------------------------------
  // String(value) and the generator's choice between it and a symbol's description

  /** JavaScript's explicit `String(value)` conversion. */
  function StringOf(v: Value): (r: string)
    ensures v.Str? ==> r == v.s
    ensures v.Sym? ==> |r| >= 8 && r[..7] == "Symbol(" && r[|r| - 1] == ')'
    ensures v.Num? ==> r == IntToDecimal(v.n)
    ensures v == Null ==> r == "null"
    ensures v == Undefined ==> r == "undefined"
    ensures v.Bool? ==> r == (if v.b then "true" else "false")
    ensures v.Other? ==> r == v.repr
  {
    match v
    case Sym(d) => "Symbol(" + (match d case Some(t) => t case None => "") + ")"
    case Str(s) => s
    case Num(n) => IntToDecimal(n)
    case Bool(b) => if b then "true" else "false"
    case Null => "null"
    case Undefined => "undefined"
    case Other(r) => r
  }

  /** The chunk `html` yields for one dynamic value: a symbol yields its
      `description` (which is `undefined` for `Symbol()`), every other value
      yields `String(value)`. */
  function Resolve(v: Value): (c: Chunk)
    ensures c.Missing? <==> v == Sym(None)
    ensures v.Str? ==> c == Text(v.s)
    ensures v.Sym? && v.description.Some? ==> c == Text(v.description.value)
    ensures !v.Sym? ==> c == Text(StringOf(v))
  {
    match v
    case Sym(d) => (match d case Some(t) => Text(t) case None => Missing)
    case _ => Text(StringOf(v))
  }

  /** A symbol yields its description, never the `Symbol(...)` text String() gives it. */
  lemma SymbolYieldsDescription(d: string)
    ensures Resolve(Sym(Some(d))) != Text(StringOf(Sym(Some(d))))
  {
  }

  /** A number yields decimal text that reads back as the same number, so two
      different numbers never yield the same chunk. */
  lemma NumberYieldsDecimal(n: SafeInteger)
    ensures Resolve(Num(n)) == Text(IntToDecimal(n))
    ensures var s := Resolve(Num(n)).text;
            IsDecimalText(s) && ParseInt(s) == n
  {
    IntDecimalRoundTrip(n);
  }
}
