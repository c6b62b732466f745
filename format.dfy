/** The Netpbm format tags and header record (Netpbm.cs), with the
    per-pixel helpers that the loaders and savers each define as lambdas:
    x, y, normalize, colorFromGrayscale and avg. */
module NetpbmFormat {
  import opened Common

  /** The six tags: P1-P3 plain text, P4-P6 binary; bitmap, graymap, pixmap. */
  datatype Format = P1 | P2 | P3 | P4 | P5 | P6

  predicate IsPlain(f: Format) { f == P1 || f == P2 || f == P3 }

  predicate IsBin(f: Format) { !IsPlain(f) }

  /** As written this holds for P1 and P2, not for the two bitmap tags P1
      and P4: it decides whether a header carries a max-colour field. */
  predicate IsPbm(f: Format) { f == P1 || f == P2 }

  /** Bytes one pixel takes in a binary file; `maxColor` defaults to 255. */
  function BytesPerPixel(f: Format, maxColor: int := 255): (n: nat)
    ensures n == 3 <==> f == P6
    ensures n == 2 <==> f == P5 && maxColor > 255
    ensures n == 1 <==> f != P6 && !(f == P5 && maxColor > 255)
  {
    match f
    case P5 => if maxColor <= 255 then 1 else 2
    case P6 => 3
    case _ => 1
  }

  /** The tag classes: text exactly for P1-P3, binary exactly for P4-P6,
      and the header-without-max-colour class (IsPbm) only among the text tags. */
  lemma FormatClasses(f: Format)
    ensures IsPlain(f) <==> f in {P1, P2, P3}
    ensures IsBin(f) <==> f in {P4, P5, P6}
    ensures IsBin(f) == !IsPlain(f)
    ensures IsPbm(f) <==> f in {P1, P2}
    ensures IsBin(f) ==> !IsPbm(f)
  {
  }

  /** With the default max colour no format takes two bytes a pixel. */
  lemma BytesPerPixelDefault(f: Format)
    ensures BytesPerPixel(f) in {1, 3}
    ensures BytesPerPixel(f) == 3 <==> f == P6
  {
  }

  /** The header record; `new NetpbmInfo()` zeroes every field. */
  datatype NetpbmInfo = NetpbmInfo(format: Format, colorMaxValue: nat, sizeX: nat, sizeY: nat)

  const DefaultInfo: NetpbmInfo := NetpbmInfo(P1, 0, 0, 0)

  /** Format.ToString(). */
  function FormatName(f: Format): (s: seq<char>)
    ensures |s| == 2 && s[0] == 'P'
  {
    match f
    case P1 => "P1"
    case P2 => "P2"
    case P3 => "P3"
    case P4 => "P4"
    case P5 => "P5"
    case P6 => "P6"
  }

  /** Enum.Parse<Format> on the exact tag names. */
  function ParseFormat(s: seq<char>): (r: Result<Format>)
    ensures r.Ok? ==> FormatName(r.value) == s
    ensures (exists f :: FormatName(f) == s) ==> r.Ok?
    ensures r.Err? ==> r.error == UnknownFormat
  {
    if s == "P1" then Ok(P1)
    else if s == "P2" then Ok(P2)
    else if s == "P3" then Ok(P3)
    else if s == "P4" then Ok(P4)
    else if s == "P5" then Ok(P5)
    else if s == "P6" then Ok(P6)
    else Err(UnknownFormat)
  }

  /** Enum.Parse reads back what ToString writes. */
  lemma ParseFormatName(f: Format)
    ensures ParseFormat(FormatName(f)) == Ok(f)
  {
  }

  /** The lambdas x(i) = i % SizeX and y(i) = i / SizeX: pixel i of the
      row-major order; both divide by SizeX. */
  function Coords(i: nat, sizeX: nat): (r: Result<(nat, nat)>)
    ensures r.Err? <==> sizeX == 0
    ensures r.Err? ==> r.error == DivideByZero
    ensures r.Ok? ==> r.value.0 < sizeX && r.value.1 * sizeX + r.value.0 == i
  {
    if sizeX == 0 then Err(DivideByZero) else Ok((i % sizeX, i / sizeX))
  }

  /** The number row-major order gives cell (x, y) of a grid w cells wide. */
  function RowMajor(x: nat, y: nat, w: nat): nat { y * w + x }

  /** Row-major order visits cell (x, y) as pixel y * SizeX + x. */
  lemma CoordsOfCell(x: nat, y: nat, sizeX: nat)
    requires x < sizeX
    ensures Coords(RowMajor(x, y, sizeX), sizeX) == Ok((x, y))
  {
    DivisionUnique(RowMajor(x, y, sizeX), sizeX, y, x);
  }

  /** The cells of a w by h grid are numbered 0 .. w * h - 1. */
  lemma RowMajorBound(x: nat, y: nat, w: nat, h: nat)
    requires x < w && y < h
    ensures RowMajor(x, y, w) < w * h
  {
    MulMonotone(y + 1, h, w);
  }

  /** A quotient and remainder pair is unique. */
  lemma DivisionUnique(a: nat, d: nat, q: nat, m: nat)
    requires d > 0 && m < d && a == q * d + m
    ensures a / d == q && a % d == m
  {
    var q', m' := a / d, a % d;
    if q' > q {
      MulMonotone(q + 1, q', d);
    } else if q' < q {
      MulMonotone(q' + 1, q, d);
    }
  }

  lemma MulMonotone(a: nat, b: nat, c: nat)
    requires a <= b
    ensures a * c <= b * c
  {
    assert b * c == a * c + (b - a) * c;
  }

  /** The lambda normalize(v) = v * byte.MaxValue / ColorMaxValue on C#
      `int`: the product wraps at 32 bits and the quotient truncates. */
  function Normalize(v: int, maxColor: nat): (r: Result<int>)
    ensures r.Err? <==> maxColor == 0
    ensures r.Err? ==> r.error == DivideByZero
  {
    if maxColor == 0 then Err(DivideByZero) else Ok(TruncDiv(Wrap32(v * 255), maxColor))
  }

  /** normalize maps 0 to 0 and, while v * 255 fits an int, the max colour to 255. */
  lemma NormalizeEnds(maxColor: nat)
    requires maxColor > 0
    ensures Normalize(0, maxColor) == Ok(0)
    ensures maxColor * 255 <= Int32Max ==> Normalize(maxColor, maxColor) == Ok(255)
  {
    if maxColor * 255 <= Int32Max {
      NormalizeRange(maxColor, maxColor);
      DivisionUnique(maxColor * 255, maxColor, 255, 0);
    }
  }

  /** Without wrap-around, normalize is floor(v * 255 / max), and it is a valid
      channel exactly when v * 255 < 256 * max. */
  lemma NormalizeRange(v: nat, maxColor: nat)
    requires maxColor > 0 && v * 255 <= Int32Max
    ensures Normalize(v, maxColor).Ok?
    ensures Normalize(v, maxColor).value == v * 255 / maxColor
    ensures IsChannel(Normalize(v, maxColor).value) <==> v * 255 < 256 * maxColor
  {
    var a := v * 255;
    assert Wrap32(a) == a;
    var n := a / maxColor;
    assert n * maxColor <= a < n * maxColor + maxColor;
    if n <= 255 {
      MulMonotone(n + 1, 256, maxColor);
    } else {
      MulMonotone(256, n, maxColor);
    }
  }

  /** With max colour 255 normalize is the identity on bytes. */
  lemma NormalizeIdentity(v: byte)
    ensures Normalize(v, 255) == Ok(v)
  {
  }

  /** Once max * 255 no longer fits an int (max above 8421504), the product
      wraps and normalize(max) falls short of 255: the max colour never
      reads as full intensity. */
  lemma NormalizeWrapsAtLargeMax(maxColor: nat)
    requires maxColor * 255 > Int32Max
    ensures Normalize(maxColor, maxColor).Ok?
    ensures Normalize(maxColor, maxColor).value < 255
  {
    var r := Wrap32(maxColor * 255);
    var q := TruncDiv(r, maxColor);
    assert Normalize(maxColor, maxColor) == Ok(q);
    if r >= 0 {
      if q >= 255 {
        MulMonotone(255, q, maxColor);
      }
    } else if q >= 1 {
      MulMonotone(1, q, maxColor);
    }
  }

  /** The lambda colorFromGrayscale(v) = Color.FromArgb(v, v, v). */
  function Gray(v: int): (r: Result<Color>)
    ensures r.Ok? <==> IsChannel(v)
    ensures r.Ok? ==> r.value == Color(255, v, v, v)
  {
    FromArgb(v, v, v)
  }

  /** The lambda avg(c) = (R + G + B) / 3 used by the graymap savers. */
  function Avg(c: Color): (v: byte)
    ensures v * 3 <= c.r + c.g + c.b < v * 3 + 3
  {
    (c.r + c.g + c.b) / 3
  }
}
