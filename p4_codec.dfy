/** The P4 path of SaveBin and LoadBin: SaveBin packs up to eight pixels
    into a byte, most significant bit first, and skips the pixel after
    each byte; LoadBin turns every bit of every buffer into a pixel, least
    significant bit first. */
module P4Codec {
  import opened Common
  import opened NetpbmFormat
  import opened Grid
  import opened BinaryHeader
  import opened NetpbmBinary
  import opened BinaryRoundTrip

  // ---------------------------------------------------------------------
  // Saving

  /** arr after m turns of the inner loop from pixel s, read on the cells
      of a bitmap whose SizeX is its width: pixel s + j is bit 7 - j. The
      bits below the last one set are still free, so arr fits a byte. */
  function PackOf(cells: seq<Color>, s: nat, m: nat): (p: nat)
    requires m <= 8 && s + m <= |cells|
    ensures p + Pow2(8 - m) <= 256
  {
    Pow2Values();
    if m == 0 then 0
    else
      assert Pow2(9 - m) == 2 * Pow2(8 - m);
      PackOf(cells, s, m - 1) + Dark(cells[s + m - 1]) * Pow2(8 - m)
  }

  /** The inner loop on the bitmap packs the cells. */
  lemma {:induction false} PackedCells(bitmap: array2<Color>, info: NetpbmInfo, s: nat, m: nat)
    requires info.sizeX == bitmap.Length0 && m <= 8 && s + m <= Area(bitmap)
    ensures Packed(bitmap, info, s, m) == Ok(PackOf(Cells(bitmap), s, m))
  {
    if m > 0 {
      PackedCells(bitmap, info, s, m - 1);
      NotPastLastRow(s + m - 1, bitmap.Length0, bitmap.Length1);
      assert CellAt(bitmap, info, s + m - 1) == Ok(Cells(bitmap)[s + m - 1]);
    }
  }

  /** The bytes SaveBin writes for P4 from pixel s: one byte for the next
      pixels, at most eight, then the bytes from the pixel after the one
      the outer i++ skips. */
  function P4From(cells: seq<Color>, s: nat): seq<byte>
    decreases |cells| - s
  {
    if s >= |cells| then []
    else
      var m := Min(8, |cells| - s);
      [PackOf(cells, s, m)] + P4From(cells, s + m + 1)
  }

  /** With SizeX the bitmap's width, SaveBin's P4 loop from pixel s places
      the packed bytes of the cells and never throws. */
  lemma {:induction false} BodyIsP4(bitmap: array2<Color>, info: NetpbmInfo, s: nat)
    requires info.format == P4 && info.sizeX == bitmap.Length0
    ensures Body(bitmap, info, s) == (P4From(Cells(bitmap), s), Done)
    decreases Area(bitmap) - s
  {
    if s < Area(bitmap) {
      var m := Min(8, Area(bitmap) - s);
      PackedCells(bitmap, info, s, m);
      assert Chunk(bitmap, info, s) == Ok([PackOf(Cells(bitmap), s, m)]);
      BodyStep(bitmap, info, s);
      BodyIsP4(bitmap, info, s + m + 1);
    }
  }

  /** SaveBin of a P4 bitmap whose SizeX is its width completes and writes
      the header, then the packed bytes. */
  lemma EncodeP4(bitmap: array2<Color>, info: NetpbmInfo)
    requires info.format == P4 && info.sizeX == bitmap.Length0
    ensures EncodeBin(bitmap, info) == (Saved(info, P4From(Cells(bitmap), 0)), Done)
  {
    BodyIsP4(bitmap, info, 0);
  }

  /** One byte per nine pixels, the last group possibly shorter: for n
      pixels, ceil(n / 9) bytes. */
  lemma {:induction false} P4Length(cells: seq<Color>, s: nat)
    requires s <= |cells|
    ensures |P4From(cells, s)| == (|cells| - s + 8) / 9
    decreases |cells| - s
  {
    if s < |cells| && |cells| - s >= 9 {
      P4Length(cells, s + 9);
    }
  }

  /** Byte k packs pixels t = 9k to 9k + 7, those that exist. */
  lemma {:induction false} P4ByteAt(cells: seq<Color>, s: nat, k: nat, t: nat)
    requires t == s + 9 * k && t < |cells|
    ensures k < |P4From(cells, s)|
    ensures P4From(cells, s)[k] == PackOf(cells, t, Min(8, |cells| - t))
    decreases k
  {
    var m := Min(8, |cells| - s);
    var rest := P4From(cells, s + m + 1);
    assert P4From(cells, s) == [PackOf(cells, s, m)] + rest;
    if k > 0 {
      assert m == 8;
      P4ByteAt(cells, s + 9, k - 1, t);
      assert P4From(cells, s)[k] == rest[k - 1];
    }
  }

  /** Packing more pixels only sets bits below those set so far. */
  lemma {:induction false} PackTail(cells: seq<Color>, s: nat, a: nat, m: nat)
    requires a <= m <= 8 && s + m <= |cells|
    ensures PackOf(cells, s, a) <= PackOf(cells, s, m)
    ensures PackOf(cells, s, m) + Pow2(8 - m) <= PackOf(cells, s, a) + Pow2(8 - a)
    decreases m
  {
    if a < m {
      PackTail(cells, s, a, m - 1);
      assert Pow2(9 - m) == 2 * Pow2(8 - m);
    }
  }

  /** After j pixels, arr is a multiple of 2^(8 - j): its low bits are clear. */
  lemma {:induction false} PackAligned(cells: seq<Color>, s: nat, j: nat) returns (h: nat)
    requires j <= 8 && s + j <= |cells|
    ensures PackOf(cells, s, j) == h * Pow2(8 - j)
  {
    if j == 0 {
      h := 0;
    } else {
      var h' := PackAligned(cells, s, j - 1);
      var p := Pow2(8 - j);
      var d := Dark(cells[s + j - 1]);
      assert Pow2(9 - j) == 2 * p;
      assert PackOf(cells, s, j) == h' * (2 * p) + d * p;
      Twice(h', d, p);
      h := 2 * h' + d;
    }
  }

  lemma Regroup(h: nat, e: nat, p: nat)
    ensures h * ((2 * e) * p) == (h * e) * (2 * p)
  {
  }

  /** Bit p of h * 2p + d * p + r, with r below p: the bit d. */
  lemma BitOfSum(h: nat, d: nat, p: nat, r: nat, v: nat)
    requires p > 0 && d <= 1 && r < p && v == h * (2 * p) + d * p + r
    ensures (v / p) % 2 == d
  {
    Twice(h, d, p);
    DivisionUnique(v, p, 2 * h + d, r);
    DivisionUnique(2 * h + d, 2, h, d);
  }

  /** Bit 7 - j of a packed byte is the darkness of pixel s + j when the
      byte reaches it, and 0 for the pixels past the end. */
  lemma PackBit(cells: seq<Color>, s: nat, m: nat, j: nat)
    requires m <= 8 && s + m <= |cells| && j < 8
    ensures (PackOf(cells, s, m) / Pow2(7 - j)) % 2 == if j < m then Dark(cells[s + j]) else 0
  {
    if j < m {
      PackBitInside(cells, s, m, j);
    } else {
      PackBitOutside(cells, s, m, j);
    }
  }

  lemma PackBitInside(cells: seq<Color>, s: nat, m: nat, j: nat)
    requires j < m <= 8 && s + m <= |cells|
    ensures (PackOf(cells, s, m) / Pow2(7 - j)) % 2 == Dark(cells[s + j])
  {
    var p := Pow2(7 - j);
    var h := PackAligned(cells, s, j);
    var d := Dark(cells[s + j]);
    PackTail(cells, s, j + 1, m);
    assert Pow2(8 - j) == 2 * p;
    assert PackOf(cells, s, j + 1) == h * (2 * p) + d * p;
    var r := PackOf(cells, s, m) - PackOf(cells, s, j + 1);
    BitOfSum(h, d, p, r, PackOf(cells, s, m));
  }

  lemma PackBitOutside(cells: seq<Color>, s: nat, m: nat, j: nat)
    requires m <= j < 8 && s + m <= |cells|
    ensures (PackOf(cells, s, m) / Pow2(7 - j)) % 2 == 0
  {
    var p := Pow2(7 - j);
    var h := PackAligned(cells, s, m);
    var e := Pow2(j - m);
    Pow2Sum(1 + j - m, 7 - j);
    assert (1 + j - m) + (7 - j) == 8 - m;
    assert Pow2(1 + j - m) == 2 * e;
    ZeroBit(h, e, p, PackOf(cells, s, m));
  }

  /** Bit p of a multiple of 2p is 0. */
  lemma ZeroBit(h: nat, e: nat, p: nat, v: nat)
    requires p > 0 && v == h * ((2 * e) * p)
    ensures (v / p) % 2 == 0
  {
    Regroup(h, e, p);
    BitOfSum(h * e, 0, p, 0, v);
  }

  /** The P4 encoding, bit by bit: bit 7 - j of byte k is set exactly when
      pixel 9k + j exists and is dark (R <= 127); pixel 9k + 8 is in no
      byte. */
  lemma P4Bit(cells: seq<Color>, k: nat, j: nat)
    requires 9 * k < |cells| && j < 8
    ensures k < |P4From(cells, 0)|
    ensures (P4From(cells, 0)[k] / Pow2(7 - j)) % 2 ==
      if 9 * k + j < |cells| && cells[9 * k + j].r <= 127 then 1 else 0
  {
    P4ByteAt(cells, 0, k, 9 * k);
    PackBit(cells, 9 * k, Min(8, |cells| - 9 * k), j);
  }

  /** LoadBin reads the bytes it is given least significant bit first:
      the pixel it assigns at 8k + 7 - j is the one SaveBin wrote at
      9k + j, and the pixels past the end of the bitmap read as unset. */
  lemma P4BitOrder(cells: seq<Color>, k: nat, j: nat)
    requires 9 * k < |cells| && j < 8
    ensures 8 * k + 7 - j < 8 * |P4From(cells, 0)|
    ensures BitAt(P4From(cells, 0), 8 * k + 7 - j) <==> 9 * k + j < |cells| && cells[9 * k + j].r <= 127
  {
    P4Bit(cells, k, j);
    assert (8 * k + 7 - j) / 8 == k && (8 * k + 7 - j) % 8 == 7 - j;
  }

  /** White pixels pack to a zero byte; eight dark pixels pack to 255. */
  lemma PackPolarity(cells: seq<Color>, s: nat, m: nat)
    requires m <= 8 && s + m <= |cells|
    ensures (forall i :: s <= i < s + m ==> cells[i].r > 127) ==> PackOf(cells, s, m) == 0
    ensures m == 8 && (forall i :: s <= i < s + m ==> cells[i].r <= 127) ==> PackOf(cells, s, m) == 255
  {
    Pow2Values();
    if forall i :: s <= i < s + m ==> cells[i].r > 127 {
      PackWhite(cells, s, m);
    }
    if m == 8 && forall i :: s <= i < s + m ==> cells[i].r <= 127 {
      PackBlack(cells, s, m);
    }
  }

  lemma {:induction false} PackWhite(cells: seq<Color>, s: nat, m: nat)
    requires m <= 8 && s + m <= |cells|
    requires forall i :: s <= i < s + m ==> cells[i].r > 127
    ensures PackOf(cells, s, m) == 0
  {
    if m > 0 {
      PackWhite(cells, s, m - 1);
      assert cells[s + m - 1].r > 127;
    }
  }

  lemma {:induction false} PackBlack(cells: seq<Color>, s: nat, m: nat)
    requires m <= 8 && s + m <= |cells|
    requires forall i :: s <= i < s + m ==> cells[i].r <= 127
    ensures PackOf(cells, s, m) + Pow2(8 - m) == 256
  {
    Pow2Values();
    if m > 0 {
      PackBlack(cells, s, m - 1);
      assert cells[s + m - 1].r <= 127;
      assert Pow2(9 - m) == 2 * Pow2(8 - m);
    }
  }

  // ---------------------------------------------------------------------
  // Loading

  /** Bit ii of bytes that start with a whole buffer of 1024 bytes, past
      that buffer, is bit ii - 8192 of the bytes after it. */
  lemma BitPastBuffer(a: seq<byte>, b: seq<byte>, ii: nat)
    requires |a| == 1024 && 8192 <= ii < 8 * |a + b|
    ensures BitAt(a + b, ii) == BitAt(b, ii - 8192)
  {
    assert (ii - 8192) / 8 == ii / 8 - 1024 && (ii - 8192) % 8 == ii % 8;
    assert (a + b)[ii / 8] == b[ii / 8 - 1024];
  }

  /** Bit ii of a buffer whose first n bytes are the front of the payload,
      for a bit inside those n bytes. */
  lemma BitInBuffer(buf: seq<byte>, payload: seq<byte>, n: nat, ii: nat)
    requires n <= |buf| && n <= |payload| && buf[..n] == payload[..n] && ii < 8 * n
    ensures BitAt(buf, ii) == BitAt(payload, ii)
  {
    assert buf[ii / 8] == buf[..n][ii / 8];
    assert payload[ii / 8] == payload[..n][ii / 8];
  }

  /** Values LoadBin assigns for a P4 payload: whole buffers of 8192
      pixels, all of them decoded, the first ones the bits of the payload
      in order, least significant bit of each byte first. */
  predicate BitValues(vs: seq<Result<Color>>, payload: seq<byte>)
  {
    && 0 < |vs| && |vs| % 8192 == 0 && 8 * |payload| <= |vs|
    && (forall ii :: 0 <= ii < |vs| ==> vs[ii].Ok?)
    && (forall ii :: 0 <= ii < 8 * |payload| ==> vs[ii] == Ok(BitColor(BitAt(payload, ii))))
  }

  /** One P4 turn: every bit of the buffer, the first n bytes of which are
      the bytes just read. */
  lemma P4Pass(info: NetpbmInfo, buf: seq<byte>, n: nat, read: seq<byte>)
    requires info.format == P4 && n <= |buf| == 1024 && buf[..n] == read
    ensures |PassValues(info, buf, n)| == 8192
    ensures BitValues(PassValues(info, buf, n), read)
  {
    forall ii | 0 <= ii < 8 * n
      ensures PassValues(info, buf, n)[ii] == Ok(BitColor(BitAt(read, ii)))
    {
      BitInBuffer(buf, read, n, ii);
    }
  }

  /** A full turn followed by the later turns: the values of the bytes of
      the full buffer followed by those of the bytes after it. */
  lemma JoinTurns(pass: seq<Result<Color>>, later: seq<Result<Color>>, a: seq<byte>, b: seq<byte>)
    requires |pass| == 8192 && |a| == 1024
    requires BitValues(pass, a) && BitValues(later, b)
    ensures BitValues(pass + later, a + b)
  {
    var vs := pass + later;
    forall ii | 0 <= ii < 8 * |a + b|
      ensures vs[ii] == Ok(BitColor(BitAt(a + b, ii)))
    {
      if ii < 8192 {
        BitInBuffer(a + b, a, 1024, ii);
        assert (a + b)[..1024] == a;
      } else {
        BitPastBuffer(a, b, ii);
      }
    }
  }

  /** From a turn whose buffer holds the n bytes just read, a full buffer
      unless the file is exhausted, P4's do-while assigns the values of the
      rest of the file: the pixel index carries on across refills. */
  lemma {:induction false} P4ValuesFrom(info: NetpbmInfo, data: seq<byte>, from: nat, pos: nat, buf: seq<byte>, n: nat)
    requires info.format == P4 && Turn(info, pos, data, buf, n)
    requires from + n == pos && buf[..n] == data[from..pos]
    requires n == |buf| || pos == |data|
    ensures BitValues(ValuesFrom(info, data, pos, buf, n), data[from..])
    decreases |data| - pos
  {
    NextTurn(info, data, pos, buf, n);
    var pass := PassValues(info, buf, n);
    P4Pass(info, buf, n, data[from..pos]);
    var m := Refill(buf, data, pos).1;
    SplitRest(data, from, pos);
    if m == 0 {
      assert data[from..] == data[from..pos];
    } else {
      P4ValuesFrom(info, data, pos, pos + m, Refill(buf, data, pos).0, m);
      JoinTurns(pass, ValuesFrom(info, data, pos + m, Refill(buf, data, pos).0, m), data[from..pos], data[pos..]);
    }
  }

  /** LoadBin's values for a P4 file: the values of the payload. */
  lemma P4Values(info: NetpbmInfo, data: seq<byte>, start: nat)
    requires info.format == P4 && start <= |data|
    ensures BitValues(AllValues(info, data, start), data[start..])
  {
    var first := Refill(Zeros(BufferSize(info.format)), data, start);
    var n := first.1;
    assert first.0[..n] == data[start..start + n];
    P4ValuesFrom(info, data, start, start + n, first.0, n);
  }

  /** The colours of values that all decode. */
  function Decoded(vs: seq<Result<Color>>): (cs: seq<Color>)
    requires forall ii :: 0 <= ii < |vs| ==> vs[ii].Ok?
    ensures |cs| == |vs| && forall ii :: 0 <= ii < |vs| ==> vs[ii] == Ok(cs[ii])
  {
    seq(|vs|, ii requires 0 <= ii < |vs| => vs[ii].value)
  }

  /** Storing values that all decode: their colours when the grid has room
      for all of them, an out-of-range store otherwise. */
  lemma StoreDecoded(vs: seq<Result<Color>>, info: NetpbmInfo)
    requires info.sizeX > 0 && forall ii :: 0 <= ii < |vs| ==> vs[ii].Ok?
    ensures |vs| <= info.sizeX * info.sizeY ==> StoreFrom(vs, info, 0) == Ok(Decoded(vs))
    ensures |vs| > info.sizeX * info.sizeY ==> StoreFrom(vs, info, 0) == Err(IndexOutOfRange)
  {
    if |vs| <= info.sizeX * info.sizeY {
      StoreAll(vs, Decoded(vs), info, 0);
      assert Decoded(vs)[0..] == Decoded(vs);
    } else {
      StoreOverflow(vs, info, 0);
    }
  }

  /** LoadBin of a P4 file loads exactly when the grid has room for every
      bit of every buffer the payload takes, and then pixel ii is black
      exactly when bit ii of the payload is set. */
  lemma P4Load(data: seq<byte>, info: NetpbmInfo, start: nat)
    requires HeaderFields(data, 0) == Ok((info, start)) && start <= |data|
    requires info.format == P4 && info.sizeX > 0
    ensures DecodeBin(data).Ok? <==> |AllValues(info, data, start)| <= info.sizeX * info.sizeY
    ensures DecodeBin(data).Ok? ==>
      && DecodeBin(data).value.0 == info
      && 8 * (|data| - start) <= |DecodeBin(data).value.1|
      && forall ii :: 0 <= ii < 8 * (|data| - start) ==>
           DecodeBin(data).value.1[ii] == BitColor(BitAt(data[start..], ii))
  {
    var vs := AllValues(info, data, start);
    P4Values(info, data, start);
    DecodeBinStores(data, info, start);
    StoreDecoded(vs, info);
  }

  /** The first turn alone assigns 8192 pixels, so a P4 image of fewer
      pixels never loads: the store on row SizeY is out of range. */
  lemma P4SmallImage(data: seq<byte>, info: NetpbmInfo, start: nat)
    requires HeaderFields(data, 0) == Ok((info, start)) && start <= |data|
    requires info.format == P4 && 0 < info.sizeX && info.sizeX * info.sizeY < 8192
    ensures DecodeBin(data) == Err(IndexOutOfRange)
  {
    var vs := AllValues(info, data, start);
    P4Values(info, data, start);
    DecodeBinStores(data, info, start);
    StoreDecoded(vs, info);
  }
}
