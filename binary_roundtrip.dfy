/** What LoadBin makes of P5 and P6 pixel data, independently of how the
    1024-pixel buffer cuts it, and what it makes of the bytes SaveBin
    writes. */
module BinaryRoundTrip {
  import opened Common
  import opened NetpbmFormat
  import opened Grid
  import opened BinaryHeader
  import opened NetpbmBinary

  // ---------------------------------------------------------------------
  // Storing values into the grid

  /** Values that all decode, stored from pixel i on inside the grid, give
      the decoded colours. */
  lemma {:induction false} StoreAll(vs: seq<Result<Color>>, cs: seq<Color>, info: NetpbmInfo, i: nat)
    requires i <= |vs| == |cs| <= info.sizeX * info.sizeY
    requires forall k :: i <= k < |vs| ==> vs[k] == Ok(cs[k])
    ensures StoreFrom(vs, info, i) == Ok(cs[i..])
    decreases |vs| - i
  {
    if i < |vs| {
      NotPastLastRow(i, info.sizeX, info.sizeY);
      assert Stored(i, vs[i], info) == Ok(cs[i]);
      StoreStep(vs, info, i);
      StoreAll(vs, cs, info, i + 1);
      assert cs[i..] == [cs[i]] + cs[i + 1..];
    } else {
      assert cs[i..] == [];
    }
  }

  /** Values that all decode but outnumber the cells: the store of pixel
      SizeX * SizeY, on row SizeY, is out of range. */
  lemma {:induction false} StoreOverflow(vs: seq<Result<Color>>, info: NetpbmInfo, i: nat)
    requires info.sizeX > 0 && i <= info.sizeX * info.sizeY < |vs|
    requires forall k :: i <= k < |vs| ==> vs[k].Ok?
    ensures StoreFrom(vs, info, i) == Err(IndexOutOfRange)
    decreases info.sizeX * info.sizeY - i
  {
    var area := info.sizeX * info.sizeY;
    if i == area {
      DivisionUnique(area, info.sizeX, info.sizeY, 0);
    } else {
      NotPastLastRow(i, info.sizeX, info.sizeY);
      StoreStep(vs, info, i);
      StoreOverflow(vs, info, i + 1);
    }
  }

  // ---------------------------------------------------------------------
  // Values of a payload

  /** A payload of whole pixels: any P5 payload, a P6 one of whole triples. */
  predicate WholePixels(f: Format, bytes: seq<byte>)
  {
    f == P5 || (f == P6 && |bytes| % 3 == 0)
  }

  /** The values a P5 or P6 payload stands for, pixel by pixel: P5 byte k is
      pixel k, P6 bytes 3k, 3k + 1 and 3k + 2 are the red, green and blue
      of pixel k, each normalized. */
  function Samples(info: NetpbmInfo, bytes: seq<byte>): (vs: seq<Result<Color>>)
    requires WholePixels(info.format, bytes)
    ensures |vs| == |bytes| / BytesPerPixel(info.format)
  {
    if info.format == P5 then seq(|bytes|, k requires 0 <= k < |bytes| => GrayAt(bytes, k, info.colorMaxValue))
    else seq(|bytes| / 3, k requires 0 <= k < |bytes| / 3 => RgbAt(bytes, 3 * k, info.colorMaxValue))
  }

  /** A turn that read n bytes of whole pixels assigns the values of those bytes. */
  lemma PassIsSamples(info: NetpbmInfo, buf: seq<byte>, n: nat)
    requires (info.format == P5 || info.format == P6) && n <= |buf|
    requires info.format == P6 ==> |buf| % 3 == 0 && n % 3 == 0
    ensures WholePixels(info.format, buf[..n])
    ensures PassValues(info, buf, n) == Samples(info, buf[..n])
  {
    var pass, want := PassValues(info, buf, n), Samples(info, buf[..n]);
    forall k | 0 <= k < |pass|
      ensures pass[k] == want[k]
    {
      if info.format == P5 {
        assert buf[..n][k] == buf[k];
      } else {
        assert buf[..n][3 * k] == buf[3 * k];
        assert buf[..n][3 * k + 1] == buf[3 * k + 1];
        assert buf[..n][3 * k + 2] == buf[3 * k + 2];
      }
    }
  }

  /** The values of two payloads one after the other are the values of
      each: no pixel straddles the cut. */
  lemma SamplesAppend(info: NetpbmInfo, a: seq<byte>, b: seq<byte>)
    requires WholePixels(info.format, a) && WholePixels(info.format, b)
    ensures WholePixels(info.format, a + b)
    ensures Samples(info, a + b) == Samples(info, a) + Samples(info, b)
  {
    if info.format == P5 {
      GrayAppend(info, a, b);
    } else {
      RgbAppend(info, a, b);
    }
  }

  lemma GrayAppend(info: NetpbmInfo, a: seq<byte>, b: seq<byte>)
    requires info.format == P5
    ensures Samples(info, a + b) == Samples(info, a) + Samples(info, b)
  {
    var ab, sa, sb := Samples(info, a + b), Samples(info, a), Samples(info, b);
    forall k | 0 <= k < |ab|
      ensures ab[k] == (sa + sb)[k]
    {
      if k < |a| {
        assert (a + b)[k] == a[k];
      } else {
        assert (a + b)[k] == b[k - |a|];
      }
    }
  }

  lemma RgbAppend(info: NetpbmInfo, a: seq<byte>, b: seq<byte>)
    requires info.format == P6 && |a| % 3 == 0 && |b| % 3 == 0
    ensures |(a + b)| % 3 == 0
    ensures Samples(info, a + b) == Samples(info, a) + Samples(info, b)
  {
    var q, r := |a| / 3, |b| / 3;
    assert |a| == 3 * q && |b| == 3 * r && |a + b| == 3 * (q + r);
    var ab, sa, sb := Samples(info, a + b), Samples(info, a), Samples(info, b);
    assert |ab| == q + r && |sa| == q && |sb| == r;
    forall k | 0 <= k < q + r
      ensures ab[k] == (sa + sb)[k]
    {
      if k < q {
        TripleOf(a, b, 3 * k, 3 * k);
      } else {
        TripleOf(a, b, 3 * k, 3 * (k - q));
        assert (sa + sb)[k] == sb[k - q];
      }
    }
  }

  /** The three bytes at ii of a + b are those at jj of a, or of b past a. */
  lemma TripleOf(a: seq<byte>, b: seq<byte>, ii: nat, jj: nat)
    requires ii + 2 < |a + b|
    requires (ii + 2 < |a| && jj == ii) || (|a| <= ii && jj == ii - |a|)
    ensures ii + 2 < |a| ==> (a + b)[ii] == a[jj] && (a + b)[ii + 1] == a[jj + 1] && (a + b)[ii + 2] == a[jj + 2]
    ensures |a| <= ii ==> (a + b)[ii] == b[jj] && (a + b)[ii + 1] == b[jj + 1] && (a + b)[ii + 2] == b[jj + 2]
  {
  }

  /** The bytes from i on are those up to j and those from j on. */
  lemma SplitRest(data: seq<byte>, i: nat, j: nat)
    requires i <= j <= |data|
    ensures data[i..] == data[i..j] + data[j..]
  {
  }

  /** One turn of the do-while and the turns after it: the read at the end
      of the turn fills the front of the buffer with the next bytes, and the
      loop stops when it reads none, at the end of the file. */
  lemma NextTurn(info: NetpbmInfo, data: seq<byte>, pos: nat, buf: seq<byte>, n: nat)
    requires Turn(info, pos, data, buf, n)
    ensures var next := Refill(buf, data, pos);
      && pos + next.1 <= |data| && next.0[..next.1] == data[pos..pos + next.1]
      && (next.1 == 0 ==> pos == |data| && ValuesFrom(info, data, pos, buf, n) == PassValues(info, buf, n))
      && (next.1 > 0 ==>
            && Turn(info, pos + next.1, data, next.0, next.1)
            && ValuesFrom(info, data, pos, buf, n) == PassValues(info, buf, n) + ValuesFrom(info, data, pos + next.1, next.0, next.1))
  {
    var next := Refill(buf, data, pos);
    assert next.0[..next.1] == data[pos..pos + next.1];
    if next.1 == 0 {
      assert ValuesFrom(info, data, pos, buf, n) == PassValues(info, buf, n) + [];
    }
  }

  /** From a turn whose buffer holds the n bytes just read, the do-while
      assigns the values of the whole rest of the file from those bytes
      on: the pixel index carries on across refills. */
  lemma {:induction false} ValuesAreSamples(info: NetpbmInfo, data: seq<byte>, from: nat, pos: nat, buf: seq<byte>, n: nat)
    requires (info.format == P5 || info.format == P6) && Turn(info, pos, data, buf, n)
    requires from + n == pos && buf[..n] == data[from..pos]
    requires WholePixels(info.format, data[from..])
    requires info.format == P6 ==> n % 3 == 0
    ensures ValuesFrom(info, data, pos, buf, n) == Samples(info, data[from..])
    decreases |data| - pos
  {
    NextTurn(info, data, pos, buf, n);
    PassIsSamples(info, buf, n);
    var m := Refill(buf, data, pos).1;
    SplitRest(data, from, pos);
    var front, rest := data[from..pos], data[pos..];
    if m == 0 {
      assert rest == [] && data[from..] == front;
    } else {
      assert |rest| == |data[from..]| - n;
      assert info.format == P6 ==> |rest| % 3 == 0 && m % 3 == 0;
      ValuesAreSamples(info, data, pos, pos + m, Refill(buf, data, pos).0, m);
      SamplesAppend(info, front, rest);
    }
  }

  /** LoadBin on P5 and P6 pixel data of whole pixels assigns the values
      of the payload, however many buffers it takes. */
  lemma AllValuesAreSamples(info: NetpbmInfo, data: seq<byte>, start: nat)
    requires (info.format == P5 || info.format == P6) && start <= |data|
    requires WholePixels(info.format, data[start..])
    ensures AllValues(info, data, start) == Samples(info, data[start..])
  {
    var first := Refill(Zeros(BufferSize(info.format)), data, start);
    var n := first.1;
    assert first.0[..n] == data[start..start + n];
    ValuesAreSamples(info, data, start, start + n, first.0, n);
  }

  /** A load result: the header with the stored cells, or the error that
      ended the store. */
  function WithHeader(info: NetpbmInfo, stored: Result<seq<Color>>): (r: Result<(NetpbmInfo, seq<Color>)>)
    ensures r.Ok? <==> stored.Ok?
    ensures r.Ok? ==> r.value == (info, stored.value)
    ensures r.Err? ==> r.error == stored.error
  {
    if stored.Ok? then Ok((info, stored.value)) else Err(stored.error)
  }

  /** LoadBin of a binary file whose header reads: the values the loop
      assigns, stored from pixel 0 on. */
  lemma DecodeBinStores(data: seq<byte>, info: NetpbmInfo, start: nat)
    requires HeaderFields(data, 0) == Ok((info, start)) && IsBin(info.format) && start <= |data|
    ensures DecodeBin(data) == WithHeader(info, StoreFrom(AllValues(info, data, start), info, 0))
  {
  }

  /** LoadBin of a P5 or P6 file: the header, then the values of the bytes
      after it stored in row-major order. */
  lemma LoadBinSamples(data: seq<byte>, info: NetpbmInfo, start: nat)
    requires HeaderFields(data, 0) == Ok((info, start))
    requires (info.format == P5 || info.format == P6) && start <= |data|
    requires WholePixels(info.format, data[start..])
    ensures DecodeBin(data) == WithHeader(info, StoreFrom(Samples(info, data[start..]), info, 0))
  {
    DecodeBinStores(data, info, start);
    AllValuesAreSamples(info, data, start);
  }

  /** colorFromGrayscale(normalize(b)) with max colour 255: the grey of b. */
  function GrayOf(b: byte): (c: Color)
    ensures c.a == 255 && c.r == b && c.g == b && c.b == b
  {
    Color(255, b, b, b)
  }

  /** The greys of the bytes of a payload, one pixel per byte. */
  function Greys(payload: seq<byte>): (cs: seq<Color>)
    ensures |cs| == |payload|
    ensures forall k :: 0 <= k < |payload| ==> cs[k] == GrayOf(payload[k])
  {
    seq(|payload|, k requires 0 <= k < |payload| => GrayOf(payload[k]))
  }

  /** The values of a P5 payload with max colour 255 are the greys of its
      bytes. */
  lemma GraySamples(info: NetpbmInfo, bytes: seq<byte>)
    requires info.format == P5 && info.colorMaxValue == 255
    ensures forall k :: 0 <= k < |bytes| ==> Samples(info, bytes)[k] == Ok(GrayOf(bytes[k]))
  {
    forall k | 0 <= k < |bytes|
      ensures Samples(info, bytes)[k] == Ok(GrayOf(bytes[k]))
    {
      NormalizeIdentity(bytes[k]);
    }
  }

  /** Storing the values of a P5 payload with max colour 255: the greys
      when they fit the grid, an out-of-range store when they do not. */
  lemma GrayStore(info: NetpbmInfo, payload: seq<byte>)
    requires info.format == P5 && info.colorMaxValue == 255
    ensures |payload| <= info.sizeX * info.sizeY ==>
      StoreFrom(Samples(info, payload), info, 0) == Ok(Greys(payload))
    ensures |payload| > info.sizeX * info.sizeY && info.sizeX > 0 ==>
      StoreFrom(Samples(info, payload), info, 0) == Err(IndexOutOfRange)
  {
    var vs := Samples(info, payload);
    GraySamples(info, payload);
    if |payload| <= info.sizeX * info.sizeY {
      StoreAll(vs, Greys(payload), info, 0);
      assert Greys(payload)[0..] == Greys(payload);
    } else if info.sizeX > 0 {
      StoreOverflow(vs, info, 0);
    }
  }

  /** LoadBin never checks that a P5 file has enough pixels: with max colour
      255, a payload of at most SizeX * SizeY bytes loads as the greys of its
      bytes, the other cells keeping default(Color); one byte more and the
      store on row SizeY is out of range. */
  lemma P5PixelCount(data: seq<byte>, info: NetpbmInfo, start: nat)
    requires HeaderFields(data, 0) == Ok((info, start)) && start <= |data|
    requires info.format == P5 && info.colorMaxValue == 255
    ensures |data| - start <= info.sizeX * info.sizeY ==> DecodeBin(data) == Ok((info, Greys(data[start..])))
    ensures |data| - start > info.sizeX * info.sizeY && info.sizeX > 0 ==> DecodeBin(data) == Err(IndexOutOfRange)
  {
    LoadBinSamples(data, info, start);
    GrayStore(info, data[start..]);
  }

  // ---------------------------------------------------------------------
  // The bytes SaveBin writes for P5 and P6

  /** Channel t of a colour: red, green, then blue. */
  function Band(c: Color, t: nat): byte
  {
    if t == 0 then c.r else if t == 1 then c.g else c.b
  }

  /** The pixel bytes SaveBin puts in its buffer: the average of the
      channels of each cell for P5, its red, green and blue for P6. */
  function PixelData(f: Format, cells: seq<Color>): (bs: seq<byte>)
    requires f == P5 || f == P6
    ensures |bs| == BytesPerPixel(f) * |cells|
  {
    if f == P5 then seq(|cells|, k requires 0 <= k < |cells| => Avg(cells[k]))
    else seq(3 * |cells|, k requires 0 <= k < 3 * |cells| => Band(cells[k / 3], k % 3))
  }

  /** The data of a cell followed by the data of the rest. */
  lemma DataCons(f: Format, cells: seq<Color>)
    requires (f == P5 || f == P6) && |cells| > 0
    ensures PixelData(f, cells) == Chunked(f, cells[0]) + PixelData(f, cells[1..])
  {
    if f == P5 {
      GrayCons(cells);
    } else {
      RgbCons(cells);
    }
  }

  lemma GrayCons(cells: seq<Color>)
    requires |cells| > 0
    ensures PixelData(P5, cells) == [Avg(cells[0])] + PixelData(P5, cells[1..])
  {
    var whole, rest := PixelData(P5, cells), PixelData(P5, cells[1..]);
    forall k | 1 <= k < |whole|
      ensures whole[k] == rest[k - 1]
    {
      assert cells[1..][k - 1] == cells[k];
    }
  }

  lemma RgbCons(cells: seq<Color>)
    requires |cells| > 0
    ensures PixelData(P6, cells) == [cells[0].r, cells[0].g, cells[0].b] + PixelData(P6, cells[1..])
  {
    var whole, rest := PixelData(P6, cells), PixelData(P6, cells[1..]);
    assert |whole| == 3 + |rest|;
    forall k | 3 <= k < |whole|
      ensures whole[k] == rest[k - 3]
    {
      NextTriple(k);
      assert cells[1..][(k - 3) / 3] == cells[k / 3];
    }
  }

  /** Byte k of P6 data is byte k - 3 of the data after the first pixel. */
  lemma NextTriple(k: nat)
    requires k >= 3
    ensures (k - 3) / 3 == k / 3 - 1 && (k - 3) % 3 == k % 3
  {
  }

  /** The bytes one P5 or P6 turn of SaveBin's loop places. */
  function Chunked(f: Format, c: Color): (bs: seq<byte>)
    requires f == P5 || f == P6
  {
    if f == P5 then [Avg(c)] else [c.r, c.g, c.b]
  }

  /** With SizeX the bitmap's width, SaveBin's loop from pixel s places the
      data of the cells from s on and never throws. */
  lemma {:induction false} BodyIsData(bitmap: array2<Color>, info: NetpbmInfo, s: nat)
    requires (info.format == P5 || info.format == P6) && info.sizeX == bitmap.Length0 && s <= Area(bitmap)
    ensures Body(bitmap, info, s) == (PixelData(info.format, Cells(bitmap)[s..]), Done)
    decreases Area(bitmap) - s
  {
    var cells := Cells(bitmap);
    if s < Area(bitmap) {
      NotPastLastRow(s, bitmap.Length0, bitmap.Length1);
      assert CellAt(bitmap, info, s) == Ok(cells[s]);
      assert Chunk(bitmap, info, s) == Ok(Chunked(info.format, cells[s]));
      BodyStep(bitmap, info, s);
      BodyIsData(bitmap, info, s + 1);
      DataCons(info.format, cells[s..]);
      assert cells[s..][1..] == cells[s + 1..];
    } else {
      assert cells[s..] == [];
    }
  }

  /** SaveBin of a P5 or P6 bitmap whose SizeX is its width completes and
      writes the header, then the data of every cell in row-major order. */
  lemma EncodeBinData(bitmap: array2<Color>, info: NetpbmInfo)
    requires (info.format == P5 || info.format == P6) && info.sizeX == bitmap.Length0
    ensures EncodeBin(bitmap, info) == (Saved(info, PixelData(info.format, Cells(bitmap))), Done)
  {
    BodyIsData(bitmap, info, 0);
    assert Cells(bitmap)[0..] == Cells(bitmap);
  }

  /** What LoadBin makes of a colour SaveBin wrote: P5 keeps the grey of
      the average, P6 keeps the channels; both are opaque. */
  function BinReading(f: Format, c: Color): Color
  {
    if f == P5 then GrayOf(Avg(c)) else Opaque(c)
  }

  /** The readings of a sequence of cells, cell by cell. */
  function Readings(f: Format, cells: seq<Color>): (rs: seq<Color>)
    ensures |rs| == |cells|
    ensures forall k :: 0 <= k < |cells| ==> rs[k] == BinReading(f, cells[k])
  {
    seq(|cells|, k requires 0 <= k < |cells| => BinReading(f, cells[k]))
  }

  /** The values of the data SaveBin writes, read with max colour 255, are
      the readings of the cells. */
  lemma DataSamples(info: NetpbmInfo, cells: seq<Color>)
    requires (info.format == P5 || info.format == P6) && info.colorMaxValue == 255
    ensures WholePixels(info.format, PixelData(info.format, cells))
    ensures |Samples(info, PixelData(info.format, cells))| == |cells|
    ensures forall k :: 0 <= k < |cells| ==>
      Samples(info, PixelData(info.format, cells))[k] == Ok(BinReading(info.format, cells[k]))
  {
    var data := PixelData(info.format, cells);
    if info.format == P5 {
      GraySamples(info, data);
    } else {
      forall k | 0 <= k < |cells|
        ensures Samples(info, data)[k] == Ok(BinReading(info.format, cells[k]))
      {
        var c := cells[k];
        assert data[3 * k] == c.r && data[3 * k + 1] == c.g && data[3 * k + 2] == c.b;
        NormalizeIdentity(c.r);
        NormalizeIdentity(c.g);
        NormalizeIdentity(c.b);
      }
    }
  }

  /** Storing the values of that data into a grid the cells fit. */
  lemma DataStored(info: NetpbmInfo, cells: seq<Color>)
    requires (info.format == P5 || info.format == P6) && info.colorMaxValue == 255
    requires |cells| <= info.sizeX * info.sizeY
    ensures WholePixels(info.format, PixelData(info.format, cells))
    ensures StoreFrom(Samples(info, PixelData(info.format, cells)), info, 0) == Ok(Readings(info.format, cells))
  {
    DataSamples(info, cells);
    StoreAll(Samples(info, PixelData(info.format, cells)), Readings(info.format, cells), info, 0);
    assert Readings(info.format, cells)[0..] == Readings(info.format, cells);
  }

  /** The pixel bytes follow the header SaveBin writes: for P5 and P6 the
      reader stops exactly where they start. */
  lemma PayloadAfterHeader(info: NetpbmInfo, body: seq<byte>)
    requires info.format == P5 || info.format == P6
    ensures HeaderEnd(info) <= |Saved(info, body)| && Saved(info, body)[HeaderEnd(info)..] == body
  {
    HeaderLength(info);
  }

  /** LoadBin of a file whose header reads with max colour 255 and whose
      payload is the data SaveBin writes for cells that fit the grid. */
  lemma DecodeAfterHeader(data: seq<byte>, read: NetpbmInfo, start: nat, cells: seq<Color>)
    requires HeaderFields(data, 0) == Ok((read, start)) && start <= |data|
    requires (read.format == P5 || read.format == P6) && read.colorMaxValue == 255
    requires |cells| <= read.sizeX * read.sizeY && data[start..] == PixelData(read.format, cells)
    ensures DecodeBin(data) == Ok((read, Readings(read.format, cells)))
  {
    DataStored(read, cells);
    LoadBinSamples(data, read, start);
  }

  /** LoadBin of the bytes SaveBin writes for cells that fill the grid: the
      header with max colour 255, and the reading of every cell. */
  lemma DecodeData(info: NetpbmInfo, cells: seq<Color>)
    requires info.format == P5 || info.format == P6
    requires info.sizeX <= Int32Max && info.sizeY <= Int32Max
    requires |cells| == info.sizeX * info.sizeY
    ensures HeaderFields(Saved(info, PixelData(info.format, cells)), 0) == Ok((info.(colorMaxValue := 255), HeaderEnd(info)))
    ensures DecodeBin(Saved(info, PixelData(info.format, cells)))
      == Ok((info.(colorMaxValue := 255), Readings(info.format, cells)))
  {
    var body := PixelData(info.format, cells);
    HeaderRoundTrip(info, body);
    PayloadAfterHeader(info, body);
    DecodeAfterHeader(Saved(info, body), info.(colorMaxValue := 255), HeaderEnd(info), cells);
  }

  /** The binary round trip for P5 and P6: with SizeX and SizeY the bitmap's
      dimensions, SaveBin completes, and LoadBin reads back the header with
      max colour 255 and, at the row-major index of every cell, its
      reading. */
  lemma BinaryRoundTrip(bitmap: array2<Color>, info: NetpbmInfo)
    requires info.format == P5 || info.format == P6
    requires info.sizeX == bitmap.Length0 && info.sizeY == bitmap.Length1
    requires info.sizeX <= Int32Max && info.sizeY <= Int32Max
    ensures EncodeBin(bitmap, info) == (Saved(info, PixelData(info.format, Cells(bitmap))), Done)
    ensures HeaderFields(EncodeBin(bitmap, info).0, 0) == Ok((info.(colorMaxValue := 255), HeaderEnd(info)))
    ensures DecodeBin(EncodeBin(bitmap, info).0) == Ok((info.(colorMaxValue := 255), Readings(info.format, Cells(bitmap))))
    ensures forall x, y :: 0 <= x < bitmap.Length0 && 0 <= y < bitmap.Length1 ==>
      RowMajor(x, y, bitmap.Length0) < |Cells(bitmap)| &&
      Readings(info.format, Cells(bitmap))[RowMajor(x, y, bitmap.Length0)] == BinReading(info.format, bitmap[x, y])
  {
    var out := EncodeBin(bitmap, info).0;
    EncodeBinData(bitmap, info);
    assert out == Saved(info, PixelData(info.format, Cells(bitmap)));
    DecodeData(info, Cells(bitmap));
    forall x, y | 0 <= x < bitmap.Length0 && 0 <= y < bitmap.Length1
      ensures RowMajor(x, y, bitmap.Length0) < |Cells(bitmap)|
      ensures Readings(info.format, Cells(bitmap))[RowMajor(x, y, bitmap.Length0)] == BinReading(info.format, bitmap[x, y])
    {
      CellsRowMajor(bitmap, x, y);
    }
  }
}
