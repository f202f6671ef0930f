/** The cell datatype of the board (`Colour` in src/tris/colour.rs) and its text rendering. */
module Colours {
  import opened Words

  /** A board cell or a piece colour: empty, or a palette value. */
  datatype Colour = Empty | Value(v: u16)

  /** The derived `PartialEq`: the tags must match and, for `Value`, so must the payloads. */
  function Equal(a: Colour, b: Colour): (r: bool)
    ensures r <==> a == b
  {
    match a
    case Empty => b.Empty?
    case Value(u) =>
      match b
      case Empty => false
      case Value(v) => u == v
  }

  /** The decimal digit character for 0 <= d < 10. */
  function DigitChar(d: int): (ch: char)
    requires 0 <= d < 10
    ensures '0' <= ch <= '9' && ch as int - '0' as int == d
  {
    "0123456789"[d]
  }

  predicate IsDecimal(s: string)
  {
    forall i :: 0 <= i < |s| ==> '0' <= s[i] <= '9'
  }

  /** Rendering of a natural number in decimal, as `{}` formats an unsigned integer. */
  function Decimal(n: nat): (s: string)
    ensures |s| >= 1 && IsDecimal(s)
    ensures |s| > 1 ==> s[0] != '0'
    decreases n
  {
    if n < 10 then [DigitChar(n)] else Decimal(n / 10) + [DigitChar(n % 10)]
  }

  /** The number a string of decimal digits denotes (an independent reader for Decimal). */
  function DecimalValue(s: string): nat
    requires IsDecimal(s)
  {
    if s == [] then 0 else DecimalValue(s[..|s| - 1]) * 10 + (s[|s| - 1] as int - '0' as int)
  }

  /** Reading back the decimal rendering gives the number. */
  lemma {:induction false} DecimalRoundTrip(n: nat)
    ensures DecimalValue(Decimal(n)) == n
    decreases n
  {
    if n >= 10 {
      DecimalRoundTrip(n / 10);
      var s := Decimal(n);
      assert s[..|s| - 1] == Decimal(n / 10);
    }
  }

  /** Distinct numbers render to distinct decimal strings. */
  lemma {:induction false} DecimalInjective(a: nat, b: nat)
    requires Decimal(a) == Decimal(b)
    ensures a == b
  {
    DecimalRoundTrip(a);
    DecimalRoundTrip(b);
  }

  /** The `Display` rendering: "empty", or '#' followed by the decimal value. */
  function Render(c: Colour): (s: string)
    ensures |s| >= 2
    ensures c.Empty? ==> s == "empty"
    ensures c.Value? ==> s == "#" + Decimal(c.v as int)
    ensures s[0] == '#' <==> c.Value?
    ensures c.Value? ==> IsDecimal(s[1..]) && DecimalValue(s[1..]) == c.v as int
  {
    match c
    case Empty => "empty"
    case Value(v) =>
      DecimalRoundTrip(v as int);
      assert ("#" + Decimal(v as int))[1..] == Decimal(v as int);
      "#" + Decimal(v as int)
  }

  /** Distinct colours render to distinct strings. */
  lemma RenderInjective(a: Colour, b: Colour)
    requires Render(a) == Render(b)
    ensures a == b
  {
  }
}
