/** Values and C# semantics shared by every part of the Netpbm codec:
    bytes, System.Drawing colours, the exceptions the codec can raise,
    32-bit integer arithmetic and decimal text. */
module Common {

  /** An unsigned 8-bit value, C#'s `byte`. */
  type byte = x: int | 0 <= x < 256

  const Int32Max: int := 0x7FFF_FFFF
  const Int32Min: int := -0x8000_0000

  /** What can go wrong in a load or a save; each constructor stands for
      the exception the source throws at that point. */
  datatype Error =
    | UnknownFormat      // Enum.Parse<Format> rejects the tag (ArgumentException)
    | BadNumber          // int.Parse or byte.Parse reject the text (FormatException)
    | NumberOverflow     // the digits do not fit the target type (OverflowException)
    | DivideByZero       // an integer division or remainder by zero
    | ChannelOutOfRange  // Color.FromArgb gets a channel outside 0..255 (ArgumentException)
    | TooManyPixels      // "File has more pixels than declared."
    | TooFewPixels       // "File has less pixels than declared"
    | NoArm              // a switch over the format has no case for it (InvalidOperationException)
    | IndexOutOfRange    // an array index outside its bounds
    | EndOfInput         // the input ends where the source keeps reading
    | EmptyFile          // First() on a file that has no line

  datatype Result<+T> = Ok(value: T) | Err(error: Error) {
    predicate IsFailure() { Err? }
    function PropagateFailure<U>(): Result<U> requires Err? { Err(error) }
    function Extract(): T requires Ok? { value }
  }

  /** How a save ends: it ran to completion, or an exception stopped it
      after part of the output was written. */
  datatype Outcome = Done | Failed(error: Error)

  /** System.Drawing.Color reduced to its alpha, red, green and blue channels. */
  datatype Color = Color(a: byte, r: byte, g: byte, b: byte)

  /** default(Color): what a cell of a fresh `Color[,]` holds until written. */
  const Empty: Color := Color(0, 0, 0, 0)
  const Black: Color := Color(255, 0, 0, 0)
  const White: Color := Color(255, 255, 255, 255)

  predicate IsChannel(v: int) { 0 <= v < 256 }

  /** Color.FromArgb(red, green, blue): an opaque colour, or an
      ArgumentException when a channel is outside 0..255. */
  function FromArgb(r: int, g: int, b: int): (c: Result<Color>)
    ensures c.Ok? <==> IsChannel(r) && IsChannel(g) && IsChannel(b)
    ensures c.Ok? ==> c.value.a == 255 && c.value.r == r && c.value.g == g && c.value.b == b
  {
    if IsChannel(r) && IsChannel(g) && IsChannel(b) then Ok(Color(255, r, g, b))
    else Err(ChannelOutOfRange)
  }

  /** The same colour made fully opaque: what a decoder that reads the
      three channels back produces. */
  function Opaque(c: Color): Color { c.(a := 255) }

  /** C# unchecked arithmetic on `int`: the value modulo 2^32, read as
      two's complement. */
  function Wrap32(x: int): (r: int)
    ensures Int32Min <= r <= Int32Max
    ensures (x - r) % 0x1_0000_0000 == 0
    ensures Int32Min <= x <= Int32Max ==> r == x
  {
    var m := x % 0x1_0000_0000;
    if m <= Int32Max then m else m - 0x1_0000_0000
  }

  /** C# division of `int` by a positive divisor: the quotient truncated
      toward zero, so the remainder takes the sign of the dividend. */
  function TruncDiv(a: int, d: int): (q: int)
    requires d > 0
    ensures a >= 0 ==> 0 <= a - q * d < d
    ensures a < 0 ==> -d < a - q * d <= 0
  {
    if a >= 0 then a / d else -((-a) / d)
  }

  predicate IsDigit(c: char) { '0' <= c <= '9' }

  predicate AllDigits(s: seq<char>) { forall k :: 0 <= k < |s| ==> IsDigit(s[k]) }

  function DigitValue(c: char): nat
    requires IsDigit(c)
  {
    c as int - '0' as int
  }

  /** The number a string of decimal digits denotes, most significant first. */
  function DigitsValue(s: seq<char>): nat
    requires AllDigits(s)
  {
    if s == [] then 0 else DigitsValue(s[..|s| - 1]) * 10 + DigitValue(s[|s| - 1])
  }

  /** int.Parse on unsigned decimal text: no digits or a character that is
      not a digit is a FormatException, a value above Int32.MaxValue an
      OverflowException. */
  function ParseInt(s: seq<char>): (r: Result<nat>)
    ensures r.Ok? <==> s != [] && AllDigits(s) && DigitsValue(s) <= Int32Max
    ensures r.Ok? ==> r.value == DigitsValue(s) && r.value <= Int32Max
    ensures r == Err(BadNumber) <==> s == [] || !AllDigits(s)
  {
    if s == [] || !AllDigits(s) then Err(BadNumber)
    else if DigitsValue(s) > Int32Max then Err(NumberOverflow)
    else Ok(DigitsValue(s))
  }

  /** byte.Parse on unsigned decimal text: as ParseInt, with the bound 255. */
  function ParseByte(s: seq<char>): (r: Result<byte>)
    ensures r.Ok? <==> s != [] && AllDigits(s) && DigitsValue(s) <= 255
    ensures r.Ok? ==> r.value == DigitsValue(s)
    ensures r == Err(BadNumber) <==> s == [] || !AllDigits(s)
  {
    if s == [] || !AllDigits(s) then Err(BadNumber)
    else if DigitsValue(s) > 255 then Err(NumberOverflow)
    else Ok(DigitsValue(s))
  }

  function DigitChar(d: nat): (c: char)
    requires d < 10
    ensures IsDigit(c) && DigitValue(c) == d
  {
    ('0' as int + d) as char
  }

  /** n.ToString(): decimal digits without leading zeros. */
  function FormatNat(n: nat): (s: seq<char>)
    ensures |s| >= 1 && AllDigits(s)
    ensures |s| > 1 ==> s[0] != '0'
  {
    if n < 10 then [DigitChar(n)] else FormatNat(n / 10) + [DigitChar(n % 10)]
  }

  /** Reading back the decimal text of a number gives that number. */
  lemma {:induction false} DigitsValueFormatNat(n: nat)
    ensures DigitsValue(FormatNat(n)) == n
  {
    if n >= 10 {
      var s := FormatNat(n);
      assert s[..|s| - 1] == FormatNat(n / 10);
      DigitsValueFormatNat(n / 10);
    }
  }

  /** int.Parse accepts what n.ToString() writes, for every non-negative int. */
  lemma ParseIntFormatNat(n: nat)
    requires n <= Int32Max
    ensures ParseInt(FormatNat(n)) == Ok(n)
  {
    DigitsValueFormatNat(n);
  }

  /** byte.Parse accepts what ToString() writes for a byte. */
  lemma ParseByteFormatNat(n: byte)
    ensures ParseByte(FormatNat(n)) == Ok(n)
  {
    DigitsValueFormatNat(n);
  }

  /** The text "255" that both savers write as the max colour reads back
      as 255, through int.Parse and byte.Parse alike. */
  lemma Parse255()
    ensures ParseInt("255") == Ok(255) && ParseByte("255") == Ok(255)
  {
    var t, b, a := "255", "25", "2";
    assert t[..2] == b && b[..1] == a && a[..0] == [];
    assert DigitsValue(a) == 2;
    assert DigitsValue(b) == 25;
    assert DigitsValue(t) == 255;
  }

  /** (char)b for the bytes from j up to e: each byte read as a Latin-1 character. */
  function Chars(bs: seq<byte>, j: nat, e: nat): (cs: seq<char>)
    requires j <= e <= |bs|
    ensures |cs| == e - j
    ensures forall k :: 0 <= k < e - j ==> cs[k] as int == bs[j + k]
  {
    seq(e - j, k requires 0 <= k < e - j => bs[j + k] as char)
  }

  /** Encoding.ASCII.GetBytes: a character above 127 becomes '?'. */
  function Ascii(cs: seq<char>): (bs: seq<byte>)
    ensures |bs| == |cs|
    ensures forall k :: 0 <= k < |cs| && cs[k] as int < 128 ==> bs[k] == cs[k] as int
  {
    seq(|cs|, k requires 0 <= k < |cs| => if cs[k] as int < 128 then cs[k] as int else '?' as int)
  }

  function Zeros(n: nat): (z: seq<byte>)
    ensures |z| == n && forall k :: 0 <= k < n ==> z[k] == 0
  {
    seq(n, k => 0)
  }
}
