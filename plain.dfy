/** The plain (text) path of the codec, Netpbm_Plain.cs: LoadPlain reads
    P1-P3 text through a FileWordsReader, SavePlain writes the header lines
    and a token stream. */
module NetpbmPlain {
  import opened Common
  import opened NetpbmFormat
  import opened WordsReader
  import opened Grid

  // ---------------------------------------------------------------------
  // The P1 comparison

  /** Where the characters of a ReadOnlySpan<char> live: the reader's file
      text, or a string literal of the program. */
  datatype Text = FileText | Literal(chars: seq<char>)

  /** A ReadOnlySpan<char>: a window of `length` characters from `start`. */
  datatype Span = Span(text: Text, start: nat, length: nat)

  /** The span the literal "1" converts to. */
  const LiteralOne: Span := Span(Literal("1"), 0, 1)

  /** `reader.Pop() == "1" ? Color.Black : Color.White` as written: `==` on
      ReadOnlySpan<char> asks whether both spans are the same window of the
      same memory, not whether they hold the same characters. */
  function P1ColorAsWritten(word: Span): (c: Color)
    ensures c == Black <==> word == LiteralOne
  {
    if word == LiteralOne then Black else White
  }

  /** No span Pop returns lies in the literal, so as written every P1
      pixel is White, whatever the file says. */
  lemma P1AsWrittenIsWhite(start: nat, length: nat)
    ensures P1ColorAsWritten(Span(FileText, start, length)) == White
  {
  }

  /** The P1 arm as intended: the token "1" is Black, any other token White. */
  function P1Color(word: seq<char>): (c: Color)
    ensures c == Black <==> word == "1"
    ensures c == White <==> word != "1"
  {
    if word == "1" then Black else White
  }

  /** A file whose text is the single token "1": the intended reading is
      Black, the reading as written is White. */
  lemma P1SpanMismatch(s: seq<char>)
    requires |s| == 1 && s[0] == '1'
    ensures PopSpec(s, 0) == (s, 1)
    ensures P1Color(PopSpec(s, 0).0) == Black
    ensures P1ColorAsWritten(Span(FileText, 0, |PopSpec(s, 0).0|)) == White
  {
    PopWord(s, 0, 0, 1);
    assert s[0..1] == s;
    OneIsBlack(s);
  }

  lemma OneIsBlack(w: seq<char>)
    requires |w| == 1 && w[0] == '1'
    ensures P1Color(w) == Black
  {
    assert w == "1";
  }

  // ---------------------------------------------------------------------
  // Decoding

  /** LoadPlain's header: Format, SizeX and SizeY, then ColorMaxValue only
      when the format is not IsPbm (otherwise it keeps its default 0); each
      field is popped and then parsed. Returns the header and the cursor. */
  function PlainHeader(s: seq<char>): (r: Result<(NetpbmInfo, nat)>)
    ensures r.Ok? ==> r.value.1 <= |s|
    ensures r.Ok? ==> r.value.0.sizeX <= Int32Max && r.value.0.sizeY <= Int32Max
    ensures r.Ok? ==> r.value.0.colorMaxValue <= Int32Max
    ensures r.Ok? && IsPbm(r.value.0.format) ==> r.value.0.colorMaxValue == 0
  {
    var p1 := PopSpec(s, 0);
    var format :- ParseFormat(p1.0);
    var p2 := PopSpec(s, p1.1);
    var sizeX :- ParseInt(p2.0);
    var p3 := PopSpec(s, p2.1);
    var sizeY :- ParseInt(p3.0);
    if IsPbm(format) then
      Ok((NetpbmInfo(format, 0, sizeX, sizeY), p3.1))
    else
      var p4 := PopSpec(s, p3.1);
      var maxColor :- ParseInt(p4.0);
      Ok((NetpbmInfo(format, maxColor, sizeX, sizeY), p4.1))
  }

  /** `int.Parse(reader.Pop())` followed by normalize: one channel. */
  function Channel(s: seq<char>, idx: nat, maxColor: nat): (r: Result<(int, nat)>)
    requires idx <= |s|
    ensures r.Ok? ==> idx <= r.value.1 <= |s| && (idx < |s| ==> idx < r.value.1)
    ensures maxColor == 0 ==> r.Err?
  {
    var p := PopSpec(s, idx);
    var v :- ParseInt(p.0);
    var n :- Normalize(v, maxColor);
    Ok((n, p.1))
  }

  /** The switch on the format in LoadPlain's loop: the colour of one pixel
      and the cursor after its tokens. P3 pops red, green and blue in that
      order and builds the colour once all three are normalized. */
  function PixelAt(s: seq<char>, idx: nat, info: NetpbmInfo): (r: Result<(Color, nat)>)
    requires idx <= |s|
    ensures r.Ok? ==> idx <= r.value.1 <= |s| && (idx < |s| ==> idx < r.value.1)
    ensures r.Ok? ==> IsPlain(info.format)
    ensures !IsPlain(info.format) ==> r == Err(NoArm)
    ensures r.Ok? && info.format == P1 ==> r.value.0 == Black || r.value.0 == White
    ensures r.Ok? && info.format != P1 ==> r.value.0.a == 255
    ensures info.format == P2 && info.colorMaxValue == 0 ==> r.Err?
  {
    match info.format
    case P1 =>
      var p := PopSpec(s, idx);
      Ok((P1Color(p.0), p.1))
    case P2 =>
      var v :- Channel(s, idx, info.colorMaxValue);
      var c :- Gray(v.0);
      Ok((c, v.1))
    case P3 =>
      var red :- Channel(s, idx, info.colorMaxValue);
      var green :- Channel(s, red.1, info.colorMaxValue);
      var blue :- Channel(s, green.1, info.colorMaxValue);
      var c :- FromArgb(red.0, green.0, blue.0);
      Ok((c, blue.1))
    case _ => Err(NoArm)
  }

  /** LoadPlain's pixel loop from cursor idx with the next pixel numbered i.
      The loop runs while the reader is not IsEmpty; y(i) is checked
      against SizeY before the pixel is read. */
  function PixelsFrom(s: seq<char>, idx: nat, info: NetpbmInfo, i: nat): (r: Result<seq<Color>>)
    requires idx <= |s|
    ensures r.Ok? && |r.value| > 0 ==> i + |r.value| <= info.sizeX * info.sizeY
    ensures r.Ok? && |r.value| > 0 ==> IsPlain(info.format)
    decreases |s| - idx
  {
    if idx + 1 >= |s| then Ok([])
    else
      var xy :- Coords(i, info.sizeX);
      if xy.1 >= info.sizeY then Err(TooManyPixels)
      else
        var p :- PixelAt(s, idx, info);
        var rest :- PixelsFrom(s, p.1, info, i + 1);
        assert i < info.sizeX * info.sizeY by {
          MulMonotone(xy.1 + 1, info.sizeY, info.sizeX);
        }
        Ok([p.0] + rest)
  }

  /** LoadPlain on the text of a file: the header and the pixels in
      row-major order, pixel i belonging to cell (i % SizeX, i / SizeX). */
  function DecodePlain(s: seq<char>): (r: Result<(NetpbmInfo, seq<Color>)>)
    ensures r.Ok? ==> |r.value.1| == r.value.0.sizeX * r.value.0.sizeY
    ensures r.Ok? && |r.value.1| > 0 ==> IsPlain(r.value.0.format)
  {
    var h :- PlainHeader(s);
    var pixels :- AllPixels(s, h.1, h.0);
    Ok((h.0, pixels))
  }

  /** The pixel loop from the cursor after the header, then the final count:
      fewer than SizeX * SizeY pixels is an error. */
  function AllPixels(s: seq<char>, idx: nat, info: NetpbmInfo): (r: Result<seq<Color>>)
    requires idx <= |s|
    ensures r.Ok? ==> |r.value| == info.sizeX * info.sizeY
    ensures r.Ok? && |r.value| > 0 ==> IsPlain(info.format)
  {
    var pixels :- PixelsFrom(s, idx, info, 0);
    if |pixels| != info.sizeX * info.sizeY then Err(TooFewPixels)
    else Ok(pixels)
  }

  /** LoadPlain's header statements, through the reader. */
  method ReadPlainHeader(reader: FileWordsReader) returns (r: Result<NetpbmInfo>)
    requires reader.Valid() && reader.idx == 0
    modifies reader`idx
    ensures reader.Valid()
    ensures PlainHeader(reader.fileContent).Err? ==> r == Err(PlainHeader(reader.fileContent).error)
    ensures PlainHeader(reader.fileContent).Ok? ==>
      r == Ok(PlainHeader(reader.fileContent).value.0) && reader.idx == PlainHeader(reader.fileContent).value.1
  {
    var word := reader.Pop();
    var format := ParseFormat(word);
    if format.Err? { return Err(format.error); }
    word := reader.Pop();
    var sizeX := ParseInt(word);
    if sizeX.Err? { return Err(sizeX.error); }
    word := reader.Pop();
    var sizeY := ParseInt(word);
    if sizeY.Err? { return Err(sizeY.error); }
    var info := NetpbmInfo(format.value, 0, sizeX.value, sizeY.value);
    if !IsPbm(info.format) {
      word := reader.Pop();
      var maxColor := ParseInt(word);
      if maxColor.Err? { return Err(maxColor.error); }
      info := info.(colorMaxValue := maxColor.value);
    }
    return Ok(info);
  }

  /** The switch expression of LoadPlain's loop, through the reader. */
  method ReadPixel(reader: FileWordsReader, info: NetpbmInfo) returns (r: Result<Color>)
    requires reader.Valid()
    modifies reader`idx
    ensures reader.Valid()
    ensures PixelAt(reader.fileContent, old(reader.idx), info).Err? ==>
      r == Err(PixelAt(reader.fileContent, old(reader.idx), info).error)
    ensures PixelAt(reader.fileContent, old(reader.idx), info).Ok? ==>
      r == Ok(PixelAt(reader.fileContent, old(reader.idx), info).value.0) &&
      reader.idx == PixelAt(reader.fileContent, old(reader.idx), info).value.1
  {
    match info.format {
      case P1 =>
        var word := reader.Pop();
        r := Ok(P1Color(word));
      case P2 =>
        var v := ReadChannel(reader, info.colorMaxValue);
        if v.Err? { return Err(v.error); }
        r := Gray(v.value);
      case P3 =>
        ghost var s, i0 := reader.fileContent, reader.idx;
        var red := ReadChannel(reader, info.colorMaxValue);
        if red.Err? { return Err(red.error); }
        ghost var i1 := reader.idx;
        var green := ReadChannel(reader, info.colorMaxValue);
        if green.Err? { return Err(green.error); }
        ghost var i2 := reader.idx;
        var blue := ReadChannel(reader, info.colorMaxValue);
        if blue.Err? { return Err(blue.error); }
        assert Channel(s, i0, info.colorMaxValue) == Ok((red.value, i1));
        assert Channel(s, i1, info.colorMaxValue) == Ok((green.value, i2));
        assert Channel(s, i2, info.colorMaxValue) == Ok((blue.value, reader.idx));
        r := FromArgb(red.value, green.value, blue.value);
      case _ =>
        r := Err(NoArm);
    }
  }

  /** One channel of a P2 or P3 pixel, read through the reader. */
  method ReadChannel(reader: FileWordsReader, maxColor: nat) returns (r: Result<int>)
    requires reader.Valid()
    modifies reader`idx
    ensures reader.Valid()
    ensures Channel(reader.fileContent, old(reader.idx), maxColor).Err? ==>
      r == Err(Channel(reader.fileContent, old(reader.idx), maxColor).error)
    ensures Channel(reader.fileContent, old(reader.idx), maxColor).Ok? ==>
      r == Ok(Channel(reader.fileContent, old(reader.idx), maxColor).value.0) &&
      reader.idx == Channel(reader.fileContent, old(reader.idx), maxColor).value.1
  {
    var word := reader.Pop();
    var v := ParseInt(word);
    if v.Err? { return Err(v.error); }
    r := Normalize(v.value, maxColor);
  }

  /** LoadPlain, given the text of the file: the header and a fresh
      SizeX by SizeY grid, or the exception that stops it. */
  method LoadPlain(content: seq<char>) returns (r: Result<(NetpbmInfo, array2<Color>)>)
    ensures DecodePlain(content).Err? ==> r == Err(DecodePlain(content).error)
    ensures DecodePlain(content).Ok? ==>
      && r.Ok?
      && r.value.0 == DecodePlain(content).value.0
      && fresh(r.value.1)
      && r.value.1.Length0 == r.value.0.sizeX && r.value.1.Length1 == r.value.0.sizeY
      && Holds(r.value.1, DecodePlain(content).value.1)
  {
    var reader := new FileWordsReader.Load(content);
    var header := ReadPlainHeader(reader);
    if header.Err? { return Err(header.error); }
    var grid := ReadPixels(reader, header.value);
    if grid.Err? { return Err(grid.error); }
    return Ok((header.value, grid.value));
  }

  /** The grid allocation, the pixel loop and the final count of LoadPlain. */
  method ReadPixels(reader: FileWordsReader, info: NetpbmInfo) returns (r: Result<array2<Color>>)
    requires reader.Valid()
    modifies reader`idx
    ensures AllPixels(reader.fileContent, old(reader.idx), info).Err? ==>
      r == Err(AllPixels(reader.fileContent, old(reader.idx), info).error)
    ensures AllPixels(reader.fileContent, old(reader.idx), info).Ok? ==>
      && r.Ok? && fresh(r.value)
      && r.value.Length0 == info.sizeX && r.value.Length1 == info.sizeY
      && Holds(r.value, AllPixels(reader.fileContent, old(reader.idx), info).value)
  {
    ghost var content, start := reader.fileContent, reader.idx;
    var w, h := info.sizeX, info.sizeY;
    var result := new Color[w, h]((_, _) => Empty);
    var i := 0;
    ghost var done: seq<Color> := [];
    assert PixelsFrom(content, start, info, 0).Ok? ==> [] + PixelsFrom(content, start, info, 0).value == PixelsFrom(content, start, info, 0).value;
    while !reader.IsEmpty()
      invariant reader.Valid() && reader.fileContent == content
      invariant fresh(result) && result.Length0 == w && result.Length1 == h
      invariant |done| == i
      invariant PixelsFrom(content, start, info, 0) == Prepend(done, PixelsFrom(content, reader.idx, info, i))
      invariant HoldsPrefix(result, done)
      decreases |content| - reader.idx
    {
      if w == 0 { return Err(DivideByZero); }
      if i / w >= h { return Err(TooManyPixels); }
      ghost var at := reader.idx;
      var c := ReadPixel(reader, info);
      PixelsFromStep(content, at, info, i);
      if c.Err? { return Err(c.error); }
      PrependTwice(done, c.value, PixelsFrom(content, reader.idx, info, i + 1));
      Place(result, i, c.value, done);
      done := done + [c.value];
      i := i + 1;
    }
    assert PixelsFrom(content, reader.idx, info, i) == Ok([]);
    assert done + [] == done;
    if i != w * h { return Err(TooFewPixels); }
    HoldsAll(result, done);
    return Ok(result);
  }

  /** One turn of LoadPlain's loop: the pixel read at the cursor, then the
      rest of the loop from the cursor after it. */
  lemma PixelsFromStep(s: seq<char>, idx: nat, info: NetpbmInfo, i: nat)
    requires idx + 1 < |s| && info.sizeX > 0 && i / info.sizeX < info.sizeY
    ensures PixelAt(s, idx, info).Err? ==> PixelsFrom(s, idx, info, i) == Err(PixelAt(s, idx, info).error)
    ensures PixelAt(s, idx, info).Ok? ==>
      PixelsFrom(s, idx, info, i) == Prepend([PixelAt(s, idx, info).value.0], PixelsFrom(s, PixelAt(s, idx, info).value.1, info, i + 1))
  {
  }

  // ---------------------------------------------------------------------
  // Encoding

  /** The lines SavePlain writes before the pixels, each ended by the
      writer's newline `nl`: Format, SizeX, SizeY and, unless IsPbm, 255. */
  function HeaderText(info: NetpbmInfo, nl: seq<char>): seq<char>
  {
    FormatName(info.format) + nl + FormatNat(info.sizeX) + nl + FormatNat(info.sizeY) + nl
      + (if IsPbm(info.format) then [] else "255" + nl)
  }

  /** The words the switch of SavePlain writes for one colour: "0" for a
      bright and "1" for a dark P1 pixel, the channel average for P2, and
      red, green and blue for P3. */
  function PixelWords(f: Format, c: Color): (ws: seq<seq<char>>)
    requires IsPlain(f)
    ensures |ws| == if f == P3 then 3 else 1
  {
    match f
    case P1 => [if c.r > 127 then "0" else "1"]
    case P2 => [FormatNat(Avg(c))]
    case P3 => [FormatNat(c.r), FormatNat(c.g), FormatNat(c.b)]
  }

  /** Each word followed by one space. */
  function Spaced(ws: seq<seq<char>>): seq<char>
  {
    if ws == [] then [] else ws[0] + " " + Spaced(ws[1..])
  }

  /** The text SavePlain writes for pixel i, read from cell (x(i), y(i)):
      no arm for P4-P6, a division by zero when SizeX is 0, and an index
      error when the cell lies outside the bitmap. */
  function PixelText(bitmap: array2<Color>, info: NetpbmInfo, i: nat): (r: Result<seq<char>>)
    reads bitmap
    ensures !IsPlain(info.format) ==> r == Err(NoArm)
    ensures IsPlain(info.format) && info.sizeX == 0 ==> r == Err(DivideByZero)
  {
    if !IsPlain(info.format) then Err(NoArm)
    else
      var xy :- Coords(i, info.sizeX);
      if xy.0 >= bitmap.Length0 || xy.1 >= bitmap.Length1 then Err(IndexOutOfRange)
      else Ok(Spaced(PixelWords(info.format, bitmap[xy.0, xy.1])))
  }

  /** `if (i % 5 == 0) stream.WriteLine();` */
  function Lead(i: nat, nl: seq<char>): seq<char>
  {
    if i % 5 == 0 then nl else []
  }

  /** Everything SavePlain has written once the loop has handled pixels
      0 .. n-1, and whether an exception stopped it; the newline of a
      failing pixel is written before the failure. */
  function Written(bitmap: array2<Color>, info: NetpbmInfo, nl: seq<char>, n: nat): (r: (seq<char>, Outcome))
    reads bitmap
    requires n <= bitmap.Length0 * bitmap.Length1
  {
    if n == 0 then (HeaderText(info, nl), Done)
    else
      var prev := Written(bitmap, info, nl, n - 1);
      if prev.1.Failed? then prev
      else match PixelText(bitmap, info, n - 1)
        case Ok(t) => (prev.0 + Lead(n - 1, nl) + t, Done)
        case Err(e) => (prev.0 + Lead(n - 1, nl), Failed(e))
  }

  /** SavePlain: everything written to the stream, and how it ended. */
  function EncodePlain(bitmap: array2<Color>, info: NetpbmInfo, nl: seq<char>): (r: (seq<char>, Outcome))
    reads bitmap
  {
    Written(bitmap, info, nl, bitmap.Length0 * bitmap.Length1)
  }

  /** Once the loop has failed, later pixels write nothing. */
  lemma {:induction false} FailureStays(bitmap: array2<Color>, info: NetpbmInfo, nl: seq<char>, m: nat, n: nat)
    requires m <= n <= bitmap.Length0 * bitmap.Length1
    requires Written(bitmap, info, nl, m).1.Failed?
    ensures Written(bitmap, info, nl, n) == Written(bitmap, info, nl, m)
    decreases n - m
  {
    if m < n {
      FailureStays(bitmap, info, nl, m, n - 1);
    }
  }

  /** One turn of SavePlain's loop after a run without failure. */
  lemma BodyStep(bitmap: array2<Color>, info: NetpbmInfo, nl: seq<char>, n: nat)
    requires n < bitmap.Length0 * bitmap.Length1
    requires Written(bitmap, info, nl, n).1 == Done
    ensures PixelText(bitmap, info, n).Ok? ==>
      Written(bitmap, info, nl, n + 1) == (Written(bitmap, info, nl, n).0 + Lead(n, nl) + PixelText(bitmap, info, n).value, Done)
    ensures PixelText(bitmap, info, n).Err? ==>
      Written(bitmap, info, nl, n + 1) == (Written(bitmap, info, nl, n).0 + Lead(n, nl), Failed(PixelText(bitmap, info, n).error))
  {
  }

  /** The switch of SavePlain has no arm for P4-P6: with any pixel to write,
      it stops after the header and the first newline. */
  lemma SaveNoArm(bitmap: array2<Color>, info: NetpbmInfo, nl: seq<char>)
    requires !IsPlain(info.format) && bitmap.Length0 * bitmap.Length1 > 0
    ensures EncodePlain(bitmap, info, nl) == (HeaderText(info, nl) + nl, Failed(NoArm))
  {
    assert Written(bitmap, info, nl, 1) == (HeaderText(info, nl) + nl, Failed(NoArm));
    FailureStays(bitmap, info, nl, 1, bitmap.Length0 * bitmap.Length1);
  }

  /** SavePlain, with the stream's contents as the output. */
  method SavePlain(bitmap: array2<Color>, info: NetpbmInfo, nl: seq<char>) returns (out: seq<char>, outcome: Outcome)
    ensures (out, outcome) == EncodePlain(bitmap, info, nl)
  {
    out := FormatName(info.format) + nl;
    out := out + FormatNat(info.sizeX) + nl;
    out := out + FormatNat(info.sizeY) + nl;
    ghost var lines := out;
    if !IsPbm(info.format) {
      out := out + "255" + nl;
      assert out == lines + ("255" + nl);
    } else {
      assert out == lines + [];
    }
    assert out == HeaderText(info, nl);
    var i := 0;
    while i < bitmap.Length0 * bitmap.Length1
      invariant i <= bitmap.Length0 * bitmap.Length1
      invariant Written(bitmap, info, nl, i) == (out, Done)
    {
      ghost var before := out;
      if i % 5 == 0 {
        out := out + nl;
      }
      assert out == before + Lead(i, nl) by {
        if i % 5 != 0 { assert before + [] == before; }
      }
      var t := PixelText(bitmap, info, i);
      BodyStep(bitmap, info, nl, i);
      if t.Err? {
        outcome := Failed(t.error);
        FailureStays(bitmap, info, nl, i + 1, bitmap.Length0 * bitmap.Length1);
        return;
      }
      out := out + t.value;
      i := i + 1;
    }
    outcome := Done;
  }
}
