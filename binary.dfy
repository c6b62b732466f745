/** LoadBin and SaveBin of Netpbm_Binary.cs: the pixel data of P4, P5 and
    P6 files, read from and written to the stream in 1024-pixel buffers. */
module NetpbmBinary {
  import opened Common
  import opened NetpbmFormat
  import opened Grid
  import opened BinaryHeader

  function Pow2(k: nat): (p: nat)
    ensures p > 0
  {
    if k == 0 then 1 else 2 * Pow2(k - 1)
  }

  /** The stackalloc buffer of both directions: 1024 pixels of
      BytesPerPixel bytes each. */
  function BufferSize(f: Format): (n: nat)
    ensures n == 1024 || n == 3072
    ensures n == 3072 <==> f == P6
  {
    1024 * BytesPerPixel(f)
  }

  // ---------------------------------------------------------------------
  // Loading: what the do-while assigns

  /** stream.Read(buffer) on a buffer holding buf: the next bytes of the
      file overwrite its front, and the count says how many. */
  function Refill(buf: seq<byte>, data: seq<byte>, pos: nat): (r: (seq<byte>, nat))
    requires pos <= |data|
    ensures r.1 == Min(|buf|, |data| - pos) && |r.0| == |buf|
  {
    var n := Min(|buf|, |data| - pos);
    (data[pos..pos + n] + buf[n..], n)
  }

  /** new BitArray(bytes)[ii]: bit ii % 8 of byte ii / 8, counting from
      the least significant bit. */
  function BitAt(bytes: seq<byte>, ii: nat): bool
    requires ii < 8 * |bytes|
  {
    (bytes[ii / 8] / Pow2(ii % 8)) % 2 == 1
  }

  /** new BitArray(bytes): one bit per bit of the bytes. */
  function Bits(bytes: seq<byte>): (bits: seq<bool>)
    ensures |bits| == 8 * |bytes|
    ensures forall ii :: 0 <= ii < |bits| ==> bits[ii] == BitAt(bytes, ii)
  {
    seq(8 * |bytes|, ii requires 0 <= ii < 8 * |bytes| => BitAt(bytes, ii))
  }

  /** arr[ii] ? Color.Black : Color.White */
  function BitColor(bit: bool): Color
  {
    if bit then Black else White
  }

  /** colorFromGrayscale(normalize(buffer[ii])) */
  function GrayAt(buf: seq<byte>, ii: nat, maxColor: nat): Result<Color>
    requires ii < |buf|
  {
    var v :- Normalize(buf[ii], maxColor);
    Gray(v)
  }

  /** Color.FromArgb(normalize(buffer[ii]), normalize(buffer[ii + 1]),
      normalize(buffer[ii + 2])) */
  function RgbAt(buf: seq<byte>, ii: nat, maxColor: nat): Result<Color>
    requires ii + 2 < |buf|
  {
    // the three normalize calls fail together, on a zero max colour
    if maxColor == 0 then Err(DivideByZero)
    else FromArgb(Normalize(buf[ii], maxColor).value, Normalize(buf[ii + 1], maxColor).value,
                  Normalize(buf[ii + 2], maxColor).value)
  }

  /** The values one turn of the do-while assigns to consecutive pixels,
      with the buffer holding buf and byteCount == n. P4 turns every bit of
      the whole buffer into a pixel, whatever n is; P5 turns each of the n
      bytes read into a pixel; P6 turns each group of three bytes starting
      below n into a pixel, the last group reading past n into what the
      buffer held before. The plain formats have no case and assign
      nothing. */
  function PassValues(info: NetpbmInfo, buf: seq<byte>, n: nat): (vs: seq<Result<Color>>)
    requires n <= |buf| && (info.format == P6 ==> |buf| % 3 == 0)
    ensures info.format == P4 ==> |vs| == 8 * |buf|
    ensures info.format == P5 ==> |vs| == n
    ensures info.format == P6 ==> |vs| == (n + 2) / 3
    ensures IsPlain(info.format) ==> vs == []
  {
    match info.format
    case P4 => seq(8 * |buf|, ii requires 0 <= ii < 8 * |buf| => Ok(BitColor(BitAt(buf, ii))))
    case P5 => seq(n, ii requires 0 <= ii < n => GrayAt(buf, ii, info.colorMaxValue))
    case P6 => seq((n + 2) / 3, k requires 0 <= k < (n + 2) / 3 => RgbAt(buf, 3 * k, info.colorMaxValue))
    case _ => []
  }

  /** Buffers a turn can see: the right size and byteCount within it. */
  predicate Turn(info: NetpbmInfo, pos: nat, data: seq<byte>, buf: seq<byte>, n: nat)
  {
    IsBin(info.format) && pos <= |data| && n <= |buf| && |buf| == BufferSize(info.format)
  }

  /** The values the do-while assigns from a turn whose buffer holds buf
      and byteCount == n, with the stream at pos. */
  function ValuesFrom(info: NetpbmInfo, data: seq<byte>, pos: nat, buf: seq<byte>, n: nat): seq<Result<Color>>
    requires Turn(info, pos, data, buf, n)
    decreases |data| - pos, 1
  {
    PassValues(info, buf, n) + Later(info, data, pos, buf)
  }

  /** What the turns after one assign: every binary case sets byteCount to
      0, so the turn ends with a read, and the loop goes on while that read
      returns bytes. */
  function Later(info: NetpbmInfo, data: seq<byte>, pos: nat, buf: seq<byte>): seq<Result<Color>>
    requires Turn(info, pos, data, buf, 0)
    decreases |data| - pos, 0
  {
    var next := Refill(buf, data, pos);
    if next.1 == 0 then [] else ValuesFrom(info, data, pos + next.1, next.0, next.1)
  }

  /** Every value the do-while assigns, starting with the read into the
      zeroed buffer before the loop. */
  function AllValues(info: NetpbmInfo, data: seq<byte>, start: nat): seq<Result<Color>>
    requires IsBin(info.format) && start <= |data|
  {
    var first := Refill(Zeros(BufferSize(info.format)), data, start);
    ValuesFrom(info, data, start + first.1, first.0, first.1)
  }

  /** result[x(i), y(i)] = v: x(i) divides by SizeX, then the value is
      computed, then the store checks the grid's bounds. */
  function Stored(i: nat, v: Result<Color>, info: NetpbmInfo): (r: Result<Color>)
    ensures r.Ok? <==> info.sizeX > 0 && v.Ok? && i / info.sizeX < info.sizeY
    ensures r.Ok? ==> r == v
    ensures info.sizeX == 0 ==> r == Err(DivideByZero)
    ensures info.sizeX > 0 && v.Err? ==> r == v
    ensures info.sizeX > 0 && v.Ok? && i / info.sizeX >= info.sizeY ==> r == Err(IndexOutOfRange)
  {
    var xy :- Coords(i, info.sizeX);
    var c :- v;
    if xy.1 >= info.sizeY then Err(IndexOutOfRange) else Ok(c)
  }

  /** Storing the values from pixel i on, in order: the first store that
      fails ends the load. */
  function StoreFrom(vs: seq<Result<Color>>, info: NetpbmInfo, i: nat): (r: Result<seq<Color>>)
    requires i <= |vs|
    decreases |vs| - i
  {
    if i == |vs| then Ok([])
    else
      var c :- Stored(i, vs[i], info);
      Prepend([c], StoreFrom(vs, info, i + 1))
  }

  /** LoadBin: the header, then every value the loop assigns. Cells the
      file does not reach keep default(Color); there is no check that the
      file has enough pixels. */
  function DecodeBin(data: seq<byte>): Result<(NetpbmInfo, seq<Color>)>
    requires HeaderFields(data, 0).Ok? ==> IsBin(HeaderFields(data, 0).value.0.format)
  {
    var h :- HeaderFields(data, 0);
    HeaderInside(data);
    var cells :- StoreFrom(AllValues(h.0, data, h.1), h.0, 0);
    Ok((h.0, cells))
  }

  // ---------------------------------------------------------------------
  // Loading: the methods

  /** LoadBin on the bytes of a file whose format is binary: the grid it
      returns holds the decoded cells, and its other cells are Empty. P1
      to P3 files are excluded: for them the loop never sets byteCount to 0
      and does not end once a read returned bytes. */
  method LoadBin(data: seq<byte>) returns (r: Result<(NetpbmInfo, array2<Color>)>)
    requires HeaderFields(data, 0).Ok? ==> IsBin(HeaderFields(data, 0).value.0.format)
    ensures r.Ok? <==> DecodeBin(data).Ok?
    ensures r.Err? ==> DecodeBin(data) == Err(r.error)
    ensures r.Ok? ==>
      && r.value.0 == DecodeBin(data).value.0
      && fresh(r.value.1)
      && r.value.1.Length0 == r.value.0.sizeX && r.value.1.Length1 == r.value.0.sizeY
      && HoldsPrefix(r.value.1, DecodeBin(data).value.1)
  {
    var stream := new ByteStream.Open(data);
    var header := ReadHeader(stream);
    if header.Err? { return Err(header.error); }
    var info := header.value;
    var grid := ReadPixels(stream, info);
    if grid.Err? { return Err(grid.error); }
    return Ok((info, grid.value));
  }

  /** The grid holds the cells of the first |done| values and the load of
      them all is the load of the rest after those cells. */
  ghost predicate Filled(result: array2<Color>, info: NetpbmInfo, vs: seq<Result<Color>>, done: seq<Color>)
    reads result
  {
    && result.Length0 == info.sizeX && result.Length1 == info.sizeY
    && |done| <= |vs|
    && StoreFrom(vs, info, 0) == Prepend(done, StoreFrom(vs, info, |done|))
    && HoldsPrefix(result, done)
  }

  /** Everything after ReadHeader: the grid, the buffer and the do-while. */
  method ReadPixels(stream: ByteStream, info: NetpbmInfo) returns (r: Result<array2<Color>>)
    requires stream.Valid() && IsBin(info.format)
    modifies stream`pos
    ensures StoreFrom(AllValues(info, stream.data, old(stream.pos)), info, 0).Err? ==>
      r == Err(StoreFrom(AllValues(info, stream.data, old(stream.pos)), info, 0).error)
    ensures StoreFrom(AllValues(info, stream.data, old(stream.pos)), info, 0).Ok? ==>
      && r.Ok? && fresh(r.value)
      && r.value.Length0 == info.sizeX && r.value.Length1 == info.sizeY
      && HoldsPrefix(r.value, StoreFrom(AllValues(info, stream.data, old(stream.pos)), info, 0).value)
  {
    ghost var data, vs := stream.data, AllValues(info, stream.data, stream.pos);
    var result: array2<Color>, buffer: array<byte>, byteCount: nat := Begin(stream, info);
    var i: nat := 0;
    ghost var done: seq<Color> := [];
    var more: bool := true;
    while more
      invariant stream.Valid() && stream.data == data
      invariant buffer.Length == BufferSize(info.format)
      invariant fresh(result) && Filled(result, info, vs, done) && i == |done|
      invariant more ==> byteCount <= buffer.Length && vs[i..] == ValuesFrom(info, data, stream.pos, buffer[..], byteCount)
      invariant !more ==> i == |vs|
      decreases |data| - stream.pos + (if more then 1 else 0)
    {
      var next;
      next, done := RunTurn(stream, buffer, result, info, byteCount, i, vs, done);
      if next.Err? { return Err(next.error); }
      i, byteCount := next.value.0, next.value.1;
      more := byteCount > 0;
    }
    FilledAll(result, info, vs, done);
    return Ok(result);
  }

  /** The part before the do-while: the grid of default colours, the
      buffer of zeros and the first read. */
  method Begin(stream: ByteStream, info: NetpbmInfo) returns (result: array2<Color>, buffer: array<byte>, byteCount: nat)
    requires stream.Valid() && IsBin(info.format)
    modifies stream`pos
    ensures stream.Valid() && stream.data == old(stream.data)
    ensures fresh(result) && fresh(buffer) && buffer.Length == BufferSize(info.format)
    ensures Filled(result, info, AllValues(info, stream.data, old(stream.pos)), [])
    ensures byteCount <= buffer.Length
    ensures AllValues(info, stream.data, old(stream.pos)) == ValuesFrom(info, stream.data, stream.pos, buffer[..], byteCount)
  {
    result := NewGrid(info);
    var pixelSize := BytesPerPixel(info.format);
    buffer := new byte[1024 * pixelSize](_ => 0);
    ghost var start, zeros := stream.pos, buffer[..];
    assert zeros == Zeros(BufferSize(info.format));
    byteCount := stream.Read(buffer);
    FirstRead(info, stream.data, start, zeros, buffer[..], byteCount);
    FilledNone(result, info, AllValues(info, stream.data, start));
  }

  /** new Color[SizeX, SizeY]: every cell holds default(Color). */
  method NewGrid(info: NetpbmInfo) returns (result: array2<Color>)
    ensures fresh(result) && result.Length0 == info.sizeX && result.Length1 == info.sizeY
    ensures HoldsPrefix(result, [])
  {
    result := new Color[info.sizeX, info.sizeY]((_, _) => Empty);
  }

  /** The read into the zeroed buffer starts the values of the do-while. */
  lemma FirstRead(info: NetpbmInfo, data: seq<byte>, start: nat, zeros: seq<byte>, buf: seq<byte>, n: nat)
    requires IsBin(info.format) && start <= |data| && zeros == Zeros(BufferSize(info.format))
    requires n == Min(|zeros|, |data| - start) && buf == data[start..start + n] + zeros[n..]
    ensures AllValues(info, data, start) == ValuesFrom(info, data, start + n, buf, n)
  {
    var first := Refill(zeros, data, start);
    assert first == (buf, n);
  }

  /** Nothing assigned yet: the load of all values is the load from the first. */
  lemma FilledNone(result: array2<Color>, info: NetpbmInfo, vs: seq<Result<Color>>)
    requires result.Length0 == info.sizeX && result.Length1 == info.sizeY && HoldsPrefix(result, [])
    ensures Filled(result, info, vs, [])
  {
    if StoreFrom(vs, info, 0).Ok? {
      assert [] + StoreFrom(vs, info, 0).value == StoreFrom(vs, info, 0).value;
    }
  }

  /** Every value assigned: the load of them all is the cells assigned. */
  lemma FilledAll(result: array2<Color>, info: NetpbmInfo, vs: seq<Result<Color>>, done: seq<Color>)
    requires Filled(result, info, vs, done) && |done| == |vs|
    ensures StoreFrom(vs, info, 0) == Ok(done)
  {
    assert StoreFrom(vs, info, |done|) == Ok([]);
    assert done + [] == done;
  }

  /** One turn of the do-while: the case of the format, then byteCount set
      to 0 and the read that refills the buffer. Returns the next pixel
      index and the new byteCount. */
  method RunTurn(stream: ByteStream, buffer: array<byte>, result: array2<Color>, info: NetpbmInfo, byteCount: nat, i: nat,
                 ghost vs: seq<Result<Color>>, ghost done: seq<Color>)
    returns (r: Result<(nat, nat)>, ghost done': seq<Color>)
    requires stream.Valid() && buffer.Length == BufferSize(info.format) && byteCount <= buffer.Length
    requires IsBin(info.format) && Filled(result, info, vs, done) && i == |done|
    requires vs[i..] == ValuesFrom(info, stream.data, stream.pos, buffer[..], byteCount)
    modifies stream`pos, buffer, result
    ensures stream.Valid() && old(stream.pos) <= stream.pos
    ensures r.Err? ==> StoreFrom(vs, info, 0) == Err(r.error)
    ensures r.Ok? ==> r.value.0 == |done'| && Filled(result, info, vs, done')
    ensures r.Ok? && r.value.1 == 0 ==> r.value.0 == |vs|
    ensures r.Ok? && r.value.1 > 0 ==>
      && old(stream.pos) < stream.pos && r.value.1 <= buffer.Length
      && vs[r.value.0..] == ValuesFrom(info, stream.data, stream.pos, buffer[..], r.value.1)
  {
    ghost var later := Later(info, stream.data, stream.pos, buffer[..]);
    var next: Result<nat>;
    if info.format == P4 {
      next, done' := StoreBits(result, info, buffer[..], i, vs, done, later);
    } else {
      next, done' := StoreBytes(result, info, buffer[..], byteCount, BytesPerPixel(info.format), i, vs, done, later);
    }
    if next.Err? { return Err(next.error), done'; }
    // both binary cases end with byteCount = 0, so this test always holds
    var count: nat := 0;
    if count == 0 {
      count := NextRead(stream, buffer, info);
    }
    return Ok((next.value, count)), done';
  }

  /** The read at the end of a turn, into the buffer as the turn left it. */
  method NextRead(stream: ByteStream, buffer: array<byte>, ghost info: NetpbmInfo) returns (count: nat)
    requires stream.Valid() && Turn(info, stream.pos, stream.data, buffer[..], 0)
    modifies stream`pos, buffer
    ensures stream.Valid() && stream.pos == old(stream.pos) + count && count <= buffer.Length
    ensures count > 0 ==> Turn(info, stream.pos, stream.data, buffer[..], count)
    ensures Later(info, stream.data, old(stream.pos), old(buffer[..])) ==
      if count == 0 then [] else ValuesFrom(info, stream.data, stream.pos, buffer[..], count)
  {
    ghost var at, held := stream.pos, buffer[..];
    count := stream.Read(buffer);
    LaterRead(info, stream.data, at, held, buffer[..], count);
  }

  /** The read that ends a turn decides what the later turns assign. */
  lemma LaterRead(info: NetpbmInfo, data: seq<byte>, pos: nat, buf: seq<byte>, buf': seq<byte>, n: nat)
    requires Turn(info, pos, data, buf, 0)
    requires n == Min(|buf|, |data| - pos) && buf' == data[pos..pos + n] + buf[n..]
    ensures Turn(info, pos + n, data, buf', n)
    ensures Later(info, data, pos, buf) == if n == 0 then [] else ValuesFrom(info, data, pos + n, buf', n)
  {
  }

  /** The values from pixel i on are those of a turn then those of the
      turns after it. */
  lemma TurnAt(vs: seq<Result<Color>>, i: nat, pass: seq<Result<Color>>, later: seq<Result<Color>>, k: nat)
    requires i <= |vs| && vs[i..] == pass + later && k < |pass|
    ensures i + k < |vs| && vs[i + k] == pass[k]
  {
    assert vs[i..][k] == (pass + later)[k];
  }

  lemma TurnDone(vs: seq<Result<Color>>, i: nat, pass: seq<Result<Color>>, later: seq<Result<Color>>)
    requires i <= |vs| && vs[i..] == pass + later
    ensures i + |pass| <= |vs| && vs[i + |pass|..] == later
  {
    assert vs[i + |pass|..] == vs[i..][|pass|..];
  }

  /** The loop index ii steps by pixelSize while k counts the pixels of
      the turn: the next index is below byteCount exactly when one more
      pixel remains. */
  lemma Stride(pixelSize: nat, n: nat, ii: nat, k: nat)
    requires pixelSize == 1 || pixelSize == 3
    requires pixelSize == 1 ==> ii == k
    requires pixelSize == 3 ==> ii == 3 * k
    ensures ii + pixelSize < n <==> k + 1 < (if pixelSize == 1 then n else (n + 2) / 3)
  {
  }

  /** A P6 pixel that starts below byteCount has all three bytes inside
      the 3072-byte buffer. */
  lemma TripleInside(ii: nat, k: nat, n: nat, size: nat)
    requires ii == 3 * k && ii < n <= size && size == 3072
    ensures ii + 2 < size
  {
  }

  /** The P4 case of a turn: every bit of the whole buffer, least
      significant first, stored as Black when set and White otherwise.
      Returns the next pixel index. */
  method StoreBits(result: array2<Color>, info: NetpbmInfo, buf: seq<byte>, i: nat,
                   ghost vs: seq<Result<Color>>, ghost done: seq<Color>, ghost later: seq<Result<Color>>)
    returns (r: Result<nat>, ghost done': seq<Color>)
    requires info.format == P4 && Filled(result, info, vs, done) && i == |done| <= |vs|
    requires vs[i..] == PassValues(info, buf, 0) + later
    modifies result
    ensures r.Err? ==> StoreFrom(vs, info, 0) == Err(r.error)
    ensures r.Ok? ==> r.value == |done'| && Filled(result, info, vs, done') && vs[r.value..] == later
  {
    ghost var pass := PassValues(info, buf, 0);
    var arr := Bits(buf);
    var ii: nat := 0;
    var j := i;
    done' := done;
    while ii < |arr|
      invariant ii <= |arr| == |pass| && j == i + ii == |done'|
      invariant Filled(result, info, vs, done')
    {
      TurnAt(vs, i, pass, later, ii);
      assert vs[j] == Ok(BitColor(arr[ii]));
      var c := Store(result, info, j, Ok(if arr[ii] then Black else White), vs, done');
      if c.Err? { return Err(c.error), done'; }
      done' := done' + [c.value];
      j, ii := j + 1, ii + 1;
    }
    TurnDone(vs, i, pass, later);
    return Ok(j), done';
  }

  /** The P5 and P6 case of a turn: one pixel per pixelSize bytes, from
      each index below byteCount. Returns the next pixel index. */
  method StoreBytes(result: array2<Color>, info: NetpbmInfo, buf: seq<byte>, byteCount: nat, pixelSize: nat, i: nat,
                    ghost vs: seq<Result<Color>>, ghost done: seq<Color>, ghost later: seq<Result<Color>>)
    returns (r: Result<nat>, ghost done': seq<Color>)
    requires (info.format == P5 || info.format == P6) && pixelSize == BytesPerPixel(info.format)
    requires byteCount <= |buf| == BufferSize(info.format)
    requires Filled(result, info, vs, done) && i == |done| <= |vs|
    requires vs[i..] == PassValues(info, buf, byteCount) + later
    modifies result
    ensures r.Err? ==> StoreFrom(vs, info, 0) == Err(r.error)
    ensures r.Ok? ==> r.value == |done'| && Filled(result, info, vs, done') && vs[r.value..] == later
  {
    ghost var pass := PassValues(info, buf, byteCount);
    var ii: nat := 0;
    ghost var k: nat := 0;
    var j := i;
    done' := done;
    while ii < byteCount
      invariant k <= |pass| && j == i + k == |done'|
      invariant pixelSize == 1 ==> ii == k
      invariant pixelSize == 3 ==> ii == 3 * k
      invariant ii < byteCount <==> k < |pass|
      decreases byteCount - ii
      invariant Filled(result, info, vs, done')
    {
      var v;
      if pixelSize == 1 {
        v := GrayAt(buf, ii, info.colorMaxValue);
      } else {
        TripleInside(ii, k, byteCount, |buf|);
        v := RgbAt(buf, ii, info.colorMaxValue);
      }
      TurnAt(vs, i, pass, later, k);
      assert vs[j] == v;
      var c := Store(result, info, j, v, vs, done');
      if c.Err? { return Err(c.error), done'; }
      done' := done' + [c.value];
      Stride(pixelSize, byteCount, ii, k);
      j, ii, k := j + 1, ii + pixelSize, k + 1;
    }
    TurnDone(vs, i, pass, later);
    return Ok(j), done';
  }

  /** result[x(i), y(i)] = v for the next pixel i = |done|: the load
      fails there, or the grid holds one more cell. */
  method Store(result: array2<Color>, info: NetpbmInfo, i: nat, v: Result<Color>,
               ghost vs: seq<Result<Color>>, ghost done: seq<Color>) returns (r: Result<Color>)
    requires Filled(result, info, vs, done) && i == |done| < |vs| && vs[i] == v
    modifies result
    ensures r == Stored(i, v, info)
    ensures r.Err? ==> StoreFrom(vs, info, 0) == Err(r.error)
    ensures r.Ok? ==> Filled(result, info, vs, done + [r.value])
  {
    StoreStep(vs, info, i);
    if info.sizeX == 0 { return Err(DivideByZero); }
    if v.Err? { return v; }
    if i / info.sizeX >= info.sizeY { return Err(IndexOutOfRange); }
    PrependTwice(done, v.value, StoreFrom(vs, info, i + 1));
    Place(result, i, v.value, done);
    return v;
  }

  /** One store of the loop: it fails, or its cell comes before the rest. */
  lemma StoreStep(vs: seq<Result<Color>>, info: NetpbmInfo, i: nat)
    requires i < |vs|
    ensures Stored(i, vs[i], info).Err? ==> StoreFrom(vs, info, i) == Err(Stored(i, vs[i], info).error)
    ensures Stored(i, vs[i], info).Ok? ==>
      StoreFrom(vs, info, i) == Prepend([Stored(i, vs[i], info).value], StoreFrom(vs, info, i + 1))
  {
  }

  // ---------------------------------------------------------------------
  // Saving: what the loop writes

  /** bitmap[x(i), y(i)] in SaveBin: x and y divide by info.SizeX, and the
      bitmap's own dimensions bound the index. */
  function CellAt(bitmap: array2<Color>, info: NetpbmInfo, i: nat): (r: Result<Color>)
    reads bitmap
    ensures info.sizeX == 0 ==> r == Err(DivideByZero)
    ensures r.Ok? <==> info.sizeX > 0 && i % info.sizeX < bitmap.Length0 && i / info.sizeX < bitmap.Length1
    ensures r.Ok? ==> r.value == bitmap[i % info.sizeX, i / info.sizeX]
  {
    var xy :- Coords(i, info.sizeX);
    if xy.0 >= bitmap.Length0 || xy.1 >= bitmap.Length1 then Err(IndexOutOfRange)
    else Ok(bitmap[xy.0, xy.1])
  }

  /** R > 127 ? 0 : 1: the P4 bit of a pixel is set when it is dark. */
  function Dark(c: Color): nat
  {
    if c.r > 127 then 0 else 1
  }

  /** arr after the first m turns of P4's inner loop from pixel s: pixel
      s + j is ORed in at bit 7 - j. No turn sets a bit an earlier turn
      set (PackedBits), so the OR is an addition. */
  function Packed(bitmap: array2<Color>, info: NetpbmInfo, s: nat, m: nat): Result<nat>
    reads bitmap
    requires m <= 8
  {
    if m == 0 then Ok(0)
    else
      var arr :- Packed(bitmap, info, s, m - 1);
      var c :- CellAt(bitmap, info, s + m - 1);
      Ok(arr + Dark(c) * Pow2(8 - m))
  }

  /** The bytes one turn of the outer loop puts in the buffer, the turn
      starting at pixel s: P4 packs the next pixels, at most eight, into
      one byte; P5 writes the average of the channels; P6 writes R, G and
      B. The plain formats have no branch and write nothing. */
  function Chunk(bitmap: array2<Color>, info: NetpbmInfo, s: nat): (r: Result<seq<byte>>)
    reads bitmap
    requires s < Area(bitmap)
    ensures r.Ok? ==> |r.value| == (if info.format == P6 then 3 else if IsBin(info.format) then 1 else 0)
  {
    match info.format
    case P4 =>
      var arr :- Packed(bitmap, info, s, Min(8, Area(bitmap) - s));
      PackedBits(bitmap, info, s, Min(8, Area(bitmap) - s));
      Ok([arr])
    case P5 =>
      var c :- CellAt(bitmap, info, s);
      Ok([Avg(c)])
    case P6 =>
      var c :- CellAt(bitmap, info, s);
      Ok([c.r, c.g, c.b])
    case _ => Ok([])
  }

  /** Where the turn after one starting at s starts: P4's inner loop moves
      i past the pixels it packed, and the outer i++ moves it once more. */
  function NextStart(f: Format, s: nat, length: nat): (t: nat)
    requires s < length
    ensures s < t <= length + 1
  {
    if f == P4 then s + Min(8, length - s) + 1 else s + 1
  }

  /** The bytes the turns from pixel s put in the buffer, and how the loop
      ends: at the end of the bitmap, or at the first turn that throws. */
  function Body(bitmap: array2<Color>, info: NetpbmInfo, s: nat): (seq<byte>, Outcome)
    reads bitmap
    decreases Area(bitmap) - s
  {
    if s >= Area(bitmap) then ([], Done)
    else
      match Chunk(bitmap, info, s)
      case Err(e) => ([], Failed(e))
      case Ok(bytes) =>
        var rest := Body(bitmap, info, NextStart(info.format, s, Area(bitmap)));
        (bytes + rest.0, rest.1)
  }

  /** The largest multiple of size up to n: how much of n placed bytes
      full buffers of that size hold. */
  function Whole(n: nat, size: nat): (w: nat)
    requires size > 0
    ensures w <= n < w + size && w % size == 0
  {
    DivisionUnique(n / size * size, size, n / size, 0);
    n / size * size
  }

  /** SaveBin: the header, then the body. The buffer is flushed each time
      it is full and once at the end; a turn that throws loses what the
      buffer held since the last flush. */
  function EncodeBin(bitmap: array2<Color>, info: NetpbmInfo): (seq<byte>, Outcome)
    reads bitmap
  {
    var body := Body(bitmap, info, 0);
    var size := BufferSize(info.format);
    var flushed := if body.1 == Done then body.0 else body.0[..Whole(|body.0|, size)];
    (Ascii(BinHeaderText(info)) + flushed, body.1)
  }

  // ---------------------------------------------------------------------
  // Saving: the methods

  /** SaveBin writing to a stream that starts empty: the bytes written and
      how the save ended. */
  method SaveBin(bitmap: array2<Color>, info: NetpbmInfo) returns (out: seq<byte>, outcome: Outcome)
    ensures (out, outcome) == EncodeBin(bitmap, info)
  {
    ghost var header := Ascii(BinHeaderText(info));
    out := Ascii(BinHeaderText(info));
    var bufferSize := 1024 * BytesPerPixel(info.format);
    var buffer := new byte[bufferSize](_ => 0);
    var bufferIdx: nat := 0;
    ghost var placed: seq<byte> := [];
    var length := bitmap.Length0 * bitmap.Length1;
    var i: nat := 0;
    assert [] + Body(bitmap, info, 0).0 == Body(bitmap, info, 0).0;
    while i < length
      invariant bufferSize == buffer.Length == BufferSize(info.format)
      invariant Kept(header, out, placed, buffer[..], bufferIdx, info.format)
      invariant Body(bitmap, info, 0) == (placed + Body(bitmap, info, i).0, Body(bitmap, info, i).1)
      decreases length - i
    {
      if bufferIdx >= bufferSize {
        // Flush buffer
        KeptFlush(header, out, placed, buffer[..], info.format);
        out := out + buffer[..];
        bufferIdx := 0;
      }
      ghost var held := buffer[..];
      var next := SaveTurn(bitmap, info, buffer, bufferIdx, i, length);
      BodyStep(bitmap, info, i);
      if next.Err? {
        FlushedPart(header, out, placed, held, bufferIdx, info.format);
        EncodeFailed(bitmap, info, placed, next.error);
        return out, Failed(next.error);
      }
      ghost var bytes := Chunk(bitmap, info, i).value;
      KeptPlace(header, out, placed, held, buffer[..], bufferIdx, bytes, info.format);
      BodyAdvance(bitmap, info, placed, i);
      placed := placed + bytes;
      i, bufferIdx := next.value.0, next.value.1;
    }
    // Flush buffer.
    KeptEnd(header, out, placed, buffer[..], bufferIdx, info.format);
    EncodeDone(bitmap, info, placed, i);
    out := out + buffer[..bufferIdx];
    return out, Done;
  }

  /** One turn of SaveBin's for loop from pixel i, with its i++: the bytes
      of the pixel, or of up to eight P4 pixels, written to the buffer at
      bufferIdx. Returns the next i and the next bufferIdx. */
  method SaveTurn(bitmap: array2<Color>, info: NetpbmInfo, buffer: array<byte>, bufferIdx: nat, i: nat, length: nat)
    returns (r: Result<(nat, nat)>)
    requires length == Area(bitmap) && i < length
    requires buffer.Length == BufferSize(info.format) && bufferIdx < buffer.Length
    requires info.format == P6 ==> bufferIdx % 3 == 0
    modifies buffer
    ensures r.Err? ==> Chunk(bitmap, info, i) == Err(r.error)
    ensures r.Ok? ==>
      && Chunk(bitmap, info, i).Ok?
      && r.value.0 == NextStart(info.format, i, length)
      && r.value.1 == bufferIdx + |Chunk(bitmap, info, i).value| <= buffer.Length
      && buffer[..r.value.1] == old(buffer[..bufferIdx]) + Chunk(bitmap, info, i).value
  {
    var next, idx := i, bufferIdx;
    if info.format == P4 {
      var arr;
      arr, next := PackByte(bitmap, info, i, length);
      if arr.Err? { return Err(arr.error); }
      PackedBits(bitmap, info, i, Min(8, length - i));
      buffer[idx] := arr.value;
      idx := idx + 1;
    } else if info.format == P5 {
      var c := ReadCell(bitmap, info, i);
      if c.Err? { return Err(c.error); }
      buffer[idx] := Avg(c.value);
      idx := idx + 1;
    } else if info.format == P6 {
      var c := ReadCell(bitmap, info, i);
      if c.Err? { return Err(c.error); }
      buffer[idx], buffer[idx + 1], buffer[idx + 2] := c.value.r, c.value.g, c.value.b;
      idx := idx + 3;
    }
    return Ok((next + 1, idx));
  }

  /** What SaveBin has written and what its buffer holds: `out` is the
      header and every full buffer flushed so far, the buffer's first
      bufferIdx bytes are the rest of the placed bytes. */
  ghost predicate Kept(header: seq<byte>, out: seq<byte>, placed: seq<byte>, buf: seq<byte>, idx: nat, f: Format)
  {
    && 0 < |buf| && idx <= |buf| && idx <= |placed|
    && (|placed| - idx) % |buf| == 0
    && out == header + placed[..|placed| - idx]
    && buf[..idx] == placed[|placed| - idx..]
    && (f == P6 ==> idx % 3 == 0 && |buf| % 3 == 0)
  }

  /** Writing out a full buffer. */
  lemma KeptFlush(header: seq<byte>, out: seq<byte>, placed: seq<byte>, buf: seq<byte>, f: Format)
    requires Kept(header, out, placed, buf, |buf|, f)
    ensures Kept(header, out + buf, placed, buf, 0, f)
  {
    assert buf[..|buf|] == buf;
    assert placed[..|placed| - |buf|] + placed[|placed| - |buf|..] == placed;
    assert (|placed| - |buf|) % |buf| == 0;
    DivisionUnique(|placed|, |buf|, (|placed| - |buf|) / |buf| + 1, 0);
  }

  /** The bytes of a turn placed in the buffer after what it held. */
  lemma KeptPlace(header: seq<byte>, out: seq<byte>, placed: seq<byte>, buf: seq<byte>, buf': seq<byte>,
                  idx: nat, bytes: seq<byte>, f: Format)
    requires Kept(header, out, placed, buf, idx, f) && idx + |bytes| <= |buf'| == |buf|
    requires buf'[..idx + |bytes|] == buf[..idx] + bytes
    requires f == P6 ==> |bytes| == 3
    ensures Kept(header, out, placed + bytes, buf', idx + |bytes|, f)
  {
    var all := placed + bytes;
    assert all[..|all| - (idx + |bytes|)] == placed[..|placed| - idx];
    assert all[|all| - (idx + |bytes|)..] == placed[|placed| - idx..] + bytes;
  }

  /** The final write completes the output. */
  lemma KeptEnd(header: seq<byte>, out: seq<byte>, placed: seq<byte>, buf: seq<byte>, idx: nat, f: Format)
    requires Kept(header, out, placed, buf, idx, f)
    ensures out + buf[..idx] == header + placed
  {
    assert placed[..|placed| - idx] + placed[|placed| - idx..] == placed;
  }

  /** A save that ends at a turn that throws. */
  lemma EncodeFailed(bitmap: array2<Color>, info: NetpbmInfo, placed: seq<byte>, e: Error)
    requires Body(bitmap, info, 0) == (placed + [], Failed(e))
    ensures EncodeBin(bitmap, info) == (Ascii(BinHeaderText(info)) + placed[..Whole(|placed|, BufferSize(info.format))], Failed(e))
  {
    assert placed + [] == placed;
  }

  /** A save that reaches the end of the bitmap. */
  lemma EncodeDone(bitmap: array2<Color>, info: NetpbmInfo, placed: seq<byte>, i: nat)
    requires i >= Area(bitmap) && Body(bitmap, info, 0) == (placed + Body(bitmap, info, i).0, Body(bitmap, info, i).1)
    ensures EncodeBin(bitmap, info) == (Ascii(BinHeaderText(info)) + placed, Done)
  {
    assert placed + [] == placed;
  }

  /** The body after one more turn that did not throw. */
  lemma BodyAdvance(bitmap: array2<Color>, info: NetpbmInfo, placed: seq<byte>, s: nat)
    requires s < Area(bitmap) && Chunk(bitmap, info, s).Ok?
    requires Body(bitmap, info, 0) == (placed + Body(bitmap, info, s).0, Body(bitmap, info, s).1)
    ensures var t := NextStart(info.format, s, Area(bitmap));
      Body(bitmap, info, 0) == (placed + Chunk(bitmap, info, s).value + Body(bitmap, info, t).0, Body(bitmap, info, t).1)
  {
    BodyStep(bitmap, info, s);
    var t := NextStart(info.format, s, Area(bitmap));
    assert placed + (Chunk(bitmap, info, s).value + Body(bitmap, info, t).0)
      == placed + Chunk(bitmap, info, s).value + Body(bitmap, info, t).0;
  }

  /** When a turn throws, what was flushed is every whole buffer's worth
      of the placed bytes. */
  lemma FlushedPart(header: seq<byte>, out: seq<byte>, placed: seq<byte>, buf: seq<byte>, idx: nat, f: Format)
    requires Kept(header, out, placed, buf, idx, f) && idx < |buf|
    ensures out == header + placed[..Whole(|placed|, |buf|)]
  {
    var q := (|placed| - idx) / |buf|;
    DivExact(|placed| - idx, |buf|);
    DivisionUnique(|placed|, |buf|, q, idx);
  }

  /** One turn of the outer loop in the body: its bytes, then the turns
      after it; or the end, when it throws. */
  lemma BodyStep(bitmap: array2<Color>, info: NetpbmInfo, s: nat)
    requires s < Area(bitmap)
    ensures Chunk(bitmap, info, s).Err? ==> Body(bitmap, info, s) == ([], Failed(Chunk(bitmap, info, s).error))
    ensures Chunk(bitmap, info, s).Ok? ==>
      var rest := Body(bitmap, info, NextStart(info.format, s, Area(bitmap)));
      Body(bitmap, info, s) == (Chunk(bitmap, info, s).value + rest.0, rest.1)
  {
  }

  /** P4's inner loop from pixel s: for ii from 7 down to 0 while i is
      inside the bitmap. Returns arr and the pixel after the last one
      packed. */
  method PackByte(bitmap: array2<Color>, info: NetpbmInfo, s: nat, length: nat) returns (r: Result<nat>, i: nat)
    requires length == Area(bitmap) && s < length
    ensures r == Packed(bitmap, info, s, Min(8, length - s))
    ensures r.Ok? ==> i == s + Min(8, length - s)
  {
    var arr: nat := 0;
    var ii: int := 7;
    i := s;
    while ii >= 0 && i < length
      invariant -1 <= ii <= 7 && i == s + (7 - ii) && i <= length
      invariant Packed(bitmap, info, s, 7 - ii) == Ok(arr)
      decreases ii + 1
    {
      var p := PackBit(bitmap, info, s, 8 - ii, arr, i, ii);
      if p.Err? {
        PackedFails(bitmap, info, s, 8 - ii, Min(8, length - s));
        return p, i;
      }
      arr := p.value;
      ii, i := ii - 1, i + 1;
    }
    assert 7 - ii == Min(8, length - s);
    return Ok(arr), i;
  }

  /** One turn of P4's inner loop: pixel i = s + m - 1 sets bit ii = 8 - m
      of arr when it is dark. */
  method PackBit(bitmap: array2<Color>, info: NetpbmInfo, s: nat, m: nat, arr: nat, i: nat, ii: nat) returns (r: Result<nat>)
    requires 0 < m <= 8 && i == s + m - 1 && ii == 8 - m && Packed(bitmap, info, s, m - 1) == Ok(arr)
    ensures r == Packed(bitmap, info, s, m)
  {
    var c := ReadCell(bitmap, info, i);
    if c.Err? {
      return Err(c.error);
    }
    PackedStep(bitmap, info, s, m, arr, c.value);
    // arr |= (byte)((R > 127 ? 0 : 1) << ii), bit ii of arr being clear
    return Ok(if c.value.r > 127 then arr else arr + Pow2(ii));
  }

  /** One more turn of P4's inner loop. */
  lemma PackedStep(bitmap: array2<Color>, info: NetpbmInfo, s: nat, m: nat, arr: nat, c: Color)
    requires 0 < m <= 8 && Packed(bitmap, info, s, m - 1) == Ok(arr) && CellAt(bitmap, info, s + m - 1) == Ok(c)
    ensures Packed(bitmap, info, s, m) == Ok(if c.r > 127 then arr else arr + Pow2(8 - m))
  {
  }

  /** Once a pixel of the inner loop throws, so does every longer run. */
  lemma {:induction false} PackedFails(bitmap: array2<Color>, info: NetpbmInfo, s: nat, m: nat, n: nat)
    requires m <= n <= 8 && Packed(bitmap, info, s, m).Err?
    ensures Packed(bitmap, info, s, n) == Packed(bitmap, info, s, m)
    decreases n
  {
    if m < n {
      PackedFails(bitmap, info, s, m, n - 1);
    }
  }

  /** bitmap[x(i), y(i)]: the index arithmetic and the bounds check. */
  method ReadCell(bitmap: array2<Color>, info: NetpbmInfo, i: nat) returns (r: Result<Color>)
    ensures r == CellAt(bitmap, info, i)
  {
    if info.sizeX == 0 { return Err(DivideByZero); }
    var x, y := i % info.sizeX, i / info.sizeX;
    if x >= bitmap.Length0 || y >= bitmap.Length1 { return Err(IndexOutOfRange); }
    return Ok(bitmap[x, y]);
  }

  lemma Pow2Values()
    ensures Pow2(1) == 2 && Pow2(2) == 4 && Pow2(3) == 8 && Pow2(4) == 16
    ensures Pow2(5) == 32 && Pow2(6) == 64 && Pow2(7) == 128 && Pow2(8) == 256
  {
    assert Pow2(1) == 2;
    assert Pow2(2) == 4;
    assert Pow2(3) == 8;
    assert Pow2(4) == 16;
    assert Pow2(5) == 32;
    assert Pow2(6) == 64;
    assert Pow2(7) == 128;
  }

  /** After m turns of P4's inner loop arr fits a byte and its low 8 - m
      bits are clear: those are the bits the later turns set, and the bits
      of pixels the last byte does not reach stay 0. */
  lemma {:induction false} PackedBits(bitmap: array2<Color>, info: NetpbmInfo, s: nat, m: nat)
    requires m <= 8 && Packed(bitmap, info, s, m).Ok?
    ensures Packed(bitmap, info, s, m).value < 256
    ensures Packed(bitmap, info, s, m).value % Pow2(8 - m) == 0
  {
    Pow2Values();
    if m > 0 {
      PackedBits(bitmap, info, s, m - 1);
      assert Pow2(9 - m) == 2 * Pow2(8 - m);
      Pow2Sum(m - 1, 9 - m);
      Pow2Sum(m, 8 - m);
      OrAsAdd(Packed(bitmap, info, s, m - 1).value, Dark(CellAt(bitmap, info, s + m - 1).value), Pow2(8 - m), Pow2(m - 1));
    }
  }

  /** Setting bit p of a value whose bits from p up are clear, within a
      byte: a multiple of 2p plus d * p, with d a bit. */
  lemma OrAsAdd(a: nat, d: nat, p: nat, p': nat)
    requires p > 0 && d <= 1 && a % (2 * p) == 0 && a < p' * (2 * p) && p' * (2 * p) == 256
    ensures (a + d * p) % p == 0 && a + d * p < 256
  {
    var q := a / (2 * p);
    DivExact(a, 2 * p);
    Twice(q, d, p);
    DivisionUnique(a + d * p, p, 2 * q + d, 0);
    if q >= p' {
      MulMonotone(p', q, 2 * p);
    }
    MulMonotone(2 * q + d, 2 * p' - 1, p);
    Twice(p', 0, p);
    assert (2 * p' - 1) * p + p == (2 * p') * p;
  }

  lemma Twice(h: nat, d: nat, p: nat)
    ensures h * (2 * p) + d * p == (2 * h + d) * p
  {
  }

  lemma DivExact(a: nat, d: nat)
    requires d > 0 && a % d == 0
    ensures a == a / d * d
  {
  }

  lemma {:induction false} Pow2Sum(a: nat, b: nat)
    ensures Pow2(a) * Pow2(b) == Pow2(a + b)
    decreases a
  {
    if a > 0 {
      Pow2Sum(a - 1, b);
      Twice(Pow2(b), 0, Pow2(a - 1));
      assert Pow2(a + b) == 2 * Pow2(a - 1 + b);
    }
  }
}
