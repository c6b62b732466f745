/** ReadHeader of Netpbm_Binary.cs: the header of a binary file, read one
    byte at a time from the FileStream that LoadBin then goes on reading
    pixels from, and the header text SaveBin writes. */
module BinaryHeader {
  import opened Common
  import opened NetpbmFormat

  // ---------------------------------------------------------------------
  // The input stream

  function Min(a: int, b: int): int { if a <= b then a else b }

  /** A FileStream opened for reading: the bytes of the file and the
      position of the next byte. */
  class ByteStream {
    var data: seq<byte>
    var pos: nat

    ghost predicate Valid()
      reads this
    {
      pos <= |data|
    }

    /** file.OpenRead(): the stream at the start of the file. */
    constructor Open(content: seq<byte>)
      ensures Valid() && data == content && pos == 0
    {
      data := content;
      pos := 0;
    }

    /** Stream.ReadByte(): the next byte, or -1 at the end of the stream. */
    method ReadByte() returns (b: int)
      requires Valid()
      modifies this`pos
      ensures Valid()
      ensures old(pos) < |data| ==> b == data[old(pos)] && pos == old(pos) + 1
      ensures old(pos) == |data| ==> b == -1 && pos == old(pos)
    {
      if pos < |data| {
        b := data[pos];
        pos := pos + 1;
      } else {
        b := -1;
      }
    }

    /** Stream.Read(buffer): as many of the remaining bytes as fit, copied
        to the front of the buffer; the rest of the buffer keeps what it
        held. Returns how many bytes were copied. */
    method Read(buffer: array<byte>) returns (n: nat)
      requires Valid()
      modifies this`pos, buffer
      ensures Valid()
      ensures n == Min(buffer.Length, |data| - old(pos)) && pos == old(pos) + n
      ensures buffer[..] == data[old(pos)..pos] + old(buffer[..])[n..]
    {
      n := Min(buffer.Length, |data| - pos);
      forall k | 0 <= k < n {
        buffer[k] := data[pos + k];
      }
      pos := pos + n;
    }
  }

  // ---------------------------------------------------------------------
  // The word-level reading

  /** The characters that end a word without opening a comment. '\r' is not
      one of them. */
  predicate IsSeparator(c: char) { c == ' ' || c == '\t' || c == '\n' }

  /** The characters that end a word: a separator or the '#' of a comment. */
  predicate Ends(c: char) { c == '#' || IsSeparator(c) }

  /** Just past the first '\n' at or after p: where reading through the
      end of the current line leaves the stream. */
  function LineEnd(bs: seq<byte>, p: nat): (r: Result<nat>)
    requires p <= |bs|
    ensures r.Err? ==> r.error == EndOfInput
    ensures r.Ok? ==> p < r.value <= |bs| && bs[r.value - 1] as char == '\n'
    decreases |bs| - p
  {
    if p == |bs| then Err(EndOfInput)
    else if bs[p] as char == '\n' then Ok(p + 1)
    else LineEnd(bs, p + 1)
  }

  /** The first byte at or after p that starts a word: separators are
      passed over, and a '#' skips through the end of its line. */
  function SkipBlank(bs: seq<byte>, p: nat): (r: Result<nat>)
    requires p <= |bs|
    ensures r.Err? ==> r.error == EndOfInput
    ensures r.Ok? ==> p <= r.value < |bs| && !Ends(bs[r.value] as char)
    decreases |bs| - p
  {
    if p == |bs| then Err(EndOfInput)
    else if bs[p] as char == '#' then
      var q :- LineEnd(bs, p + 1);
      SkipBlank(bs, q)
    else if IsSeparator(bs[p] as char) then SkipBlank(bs, p + 1)
    else Ok(p)
  }

  /** The end of the word starting at j: the first byte that ends it, or
      the end of the input. */
  function TokenEnd(bs: seq<byte>, j: nat): (e: nat)
    requires j <= |bs|
    ensures j <= e <= |bs|
    ensures e < |bs| ==> Ends(bs[e] as char)
    decreases |bs| - j
  {
    if j == |bs| || Ends(bs[j] as char) then j else TokenEnd(bs, j + 1)
  }

  /** The next non-empty word from p and the position of the byte that
      ends it; a word the input ends inside is never finished. */
  function NextWord(bs: seq<byte>, p: nat): (r: Result<(seq<char>, nat)>)
    requires p <= |bs|
    ensures r.Err? ==> r.error == EndOfInput
    ensures r.Ok? ==> p < r.value.1 < |bs| && Ends(bs[r.value.1] as char)
  {
    var j :- SkipBlank(bs, p);
    var e := TokenEnd(bs, j);
    if e == |bs| then Err(EndOfInput) else Ok((Chars(bs, j, e), e))
  }

  /** Where the search for the next word starts once a word ended at e:
      just past a separator, or past the line of the comment a '#' opens. */
  function Resume(bs: seq<byte>, e: nat): (r: Result<nat>)
    requires e < |bs|
    ensures r.Ok? ==> e < r.value <= |bs|
    ensures bs[e] as char != '#' ==> r == Ok(e + 1)
  {
    if bs[e] as char == '#' then LineEnd(bs, e + 1) else Ok(e + 1)
  }

  /** Where the stream is left once the last field ended at e: past e when
      that was the newline, and past the next newline otherwise. */
  function Finish(bs: seq<byte>, e: nat): (r: Result<nat>)
    requires e < |bs|
    ensures r.Ok? ==> e < r.value <= |bs| && bs[r.value - 1] as char == '\n'
    ensures bs[e] as char == '\n' <==> r == Ok(e + 1)
  {
    if bs[e] as char == '\n' then Ok(e + 1) else LineEnd(bs, e + 1)
  }

  /** The switch over `stage`: which field of the header the word fills,
      through Enum.Parse, int.Parse or byte.Parse. */
  function Assign(stage: nat, word: seq<char>, info: NetpbmInfo): (r: Result<NetpbmInfo>)
    requires stage < 4
    ensures r.Ok? && stage == 0 ==> r.value == info.(format := r.value.format) && FormatName(r.value.format) == word
    ensures r.Ok? && stage == 1 ==> r.value == info.(sizeX := r.value.sizeX) && r.value.sizeX <= Int32Max
    ensures r.Ok? && stage == 2 ==> r.value == info.(sizeY := r.value.sizeY) && r.value.sizeY <= Int32Max
    ensures r.Ok? && stage == 3 ==> r.value == info.(colorMaxValue := r.value.colorMaxValue) && r.value.colorMaxValue <= 255
    ensures stage == 0 ==> (r.Ok? <==> exists f :: FormatName(f) == word)
    ensures 1 <= stage ==> (r.Ok? <==> word != [] && AllDigits(word) && DigitsValue(word) <= (if stage == 3 then 255 else Int32Max))
    ensures r.Ok? && stage == 1 ==> r.value.sizeX == DigitsValue(word)
    ensures r.Ok? && stage == 2 ==> r.value.sizeY == DigitsValue(word)
    ensures r.Ok? && stage == 3 ==> r.value.colorMaxValue == DigitsValue(word)
  {
    match stage
    case 0 => var f :- ParseFormat(word); Ok(info.(format := f))
    case 1 => var n :- ParseInt(word); Ok(info.(sizeX := n))
    case 2 => var n :- ParseInt(word); Ok(info.(sizeY := n))
    case _ => var m :- ParseByte(word); Ok(info.(colorMaxValue := m))
  }

  /** `stage is 3 && result.Format.IsPbm() || stage is 4`: the header is
      complete after three fields for P1 and P2 and after four otherwise. */
  predicate Complete(stage: nat, f: Format) { (stage == 3 && IsPbm(f)) || stage == 4 }

  /** The header fields from `stage` on, one non-empty word each, read
      from p: the record and where the stream is left. */
  function FieldsFrom(bs: seq<byte>, p: nat, stage: nat, info: NetpbmInfo): (r: Result<(NetpbmInfo, nat)>)
    requires p <= |bs| && stage < 4
    decreases 4 - stage
  {
    var we :- NextWord(bs, p);
    var next :- Assign(stage, we.0, info);
    if Complete(stage + 1, next.format) then
      var q :- Finish(bs, we.1);
      Ok((next, q))
    else
      var q :- Resume(bs, we.1);
      FieldsFrom(bs, q, stage + 1, next)
  }

  /** The header read from p: Format, SizeX, SizeY and, unless IsPbm,
      ColorMaxValue, from the non-empty words in that order. */
  function HeaderFields(bs: seq<byte>, p: nat): (r: Result<(NetpbmInfo, nat)>)
    requires p <= |bs|
  {
    FieldsFrom(bs, p, 0, DefaultInfo)
  }

  /** What the fields read so far allow: sizes that fit an int and no max
      colour yet; at stage 3 the tag is one that has a max colour field. */
  predicate Partial(stage: nat, info: NetpbmInfo)
  {
    && info.sizeX <= Int32Max && info.sizeY <= Int32Max && info.colorMaxValue == 0
    && (stage == 3 ==> !IsPbm(info.format))
  }

  /** What a complete header record satisfies: sizes that fit an int, a
      max colour that fits a byte and is left 0 when IsPbm. */
  predicate Bounded(info: NetpbmInfo)
  {
    && info.sizeX <= Int32Max && info.sizeY <= Int32Max && info.colorMaxValue <= 255
    && (IsPbm(info.format) ==> info.colorMaxValue == 0)
  }

  /** One field assigned: the record is complete and bounded, or partial
      for the next stage. */
  lemma AssignKeeps(stage: nat, word: seq<char>, info: NetpbmInfo)
    requires stage < 4 && Partial(stage, info) && Assign(stage, word, info).Ok?
    ensures Complete(stage + 1, Assign(stage, word, info).value.format) ==> Bounded(Assign(stage, word, info).value)
    ensures !Complete(stage + 1, Assign(stage, word, info).value.format) ==> Partial(stage + 1, Assign(stage, word, info).value)
  {
  }

  /** A successful read from any stage gives a bounded record and leaves
      the stream just past a newline. */
  lemma {:induction false} FieldsShape(bs: seq<byte>, p: nat, stage: nat, info: NetpbmInfo)
    requires p <= |bs| && stage < 4 && Partial(stage, info)
    requires FieldsFrom(bs, p, stage, info).Ok?
    ensures Bounded(FieldsFrom(bs, p, stage, info).value.0)
    ensures p < FieldsFrom(bs, p, stage, info).value.1 <= |bs|
    ensures bs[FieldsFrom(bs, p, stage, info).value.1 - 1] as char == '\n'
    decreases 4 - stage
  {
    var we, next := FieldsStep(bs, p, stage, info);
    AssignKeeps(stage, we.0, info);
    if !Complete(stage + 1, next.format) {
      FieldsShape(bs, Resume(bs, we.1).value, stage + 1, next);
    }
  }

  /** One field of a read that succeeds: its word, the record with it
      assigned, and what is read after it. */
  lemma FieldsStep(bs: seq<byte>, p: nat, stage: nat, info: NetpbmInfo) returns (we: (seq<char>, nat), next: NetpbmInfo)
    requires p <= |bs| && stage < 4 && FieldsFrom(bs, p, stage, info).Ok?
    ensures NextWord(bs, p) == Ok(we) && Assign(stage, we.0, info) == Ok(next)
    ensures Complete(stage + 1, next.format) ==>
      Finish(bs, we.1).Ok? && FieldsFrom(bs, p, stage, info) == Ok((next, Finish(bs, we.1).value))
    ensures !Complete(stage + 1, next.format) ==>
      Resume(bs, we.1).Ok? && FieldsFrom(bs, p, stage, info) == FieldsFrom(bs, Resume(bs, we.1).value, stage + 1, next)
  {
    we := NextWord(bs, p).value;
    next := Assign(stage, we.0, info).value;
  }

  /** A header that reads ends inside the file. */
  lemma HeaderInside(bs: seq<byte>)
    ensures HeaderFields(bs, 0).Ok? ==> HeaderFields(bs, 0).value.1 <= |bs|
  {
    if HeaderFields(bs, 0).Ok? {
      FieldsShape(bs, 0, 0, DefaultInfo);
    }
  }

  /** LineEnd stops at the first newline: none lies between p and it,
      and none at all when it fails. */
  lemma {:induction false} LineEndFirst(bs: seq<byte>, p: nat)
    requires p <= |bs|
    ensures LineEnd(bs, p).Err? ==> forall k :: p <= k < |bs| ==> bs[k] as char != '\n'
    ensures LineEnd(bs, p).Ok? ==> forall k :: p <= k < LineEnd(bs, p).value - 1 ==> bs[k] as char != '\n'
    decreases |bs| - p
  {
    if p < |bs| && bs[p] as char != '\n' {
      LineEndFirst(bs, p + 1);
    }
  }

  /** No byte inside a word ends it. */
  lemma {:induction false} TokenEndInside(bs: seq<byte>, j: nat)
    requires j <= |bs|
    ensures forall k :: j <= k < TokenEnd(bs, j) ==> !Ends(bs[k] as char)
    decreases |bs| - j
  {
    if j < |bs| && !Ends(bs[j] as char) {
      TokenEndInside(bs, j + 1);
    }
  }

  /** The word NextWord returns: the non-empty run of bytes just before the
      byte that ends it, none of them a separator or a '#'. */
  lemma NextWordShape(bs: seq<byte>, p: nat)
    requires p <= |bs| && NextWord(bs, p).Ok?
    ensures var (w, e) := NextWord(bs, p).value;
      && 0 < |w| <= e - p
      && forall k :: 0 <= k < |w| ==> !Ends(w[k]) && w[k] as int == bs[e - |w| + k]
  {
    var j := SkipBlank(bs, p).value;
    TokenEndInside(bs, j);
  }

  /** A run of bytes spelling w from j, followed by a byte that ends it, is
      the next word from j. */
  lemma WordAt(bs: seq<byte>, j: nat, w: seq<char>)
    requires 0 < |w| && j + |w| < |bs| && Spells(bs, j, w) && Unbroken(w)
    requires Ends(bs[j + |w|] as char)
    ensures NextWord(bs, j) == Ok((w, j + |w|))
  {
    forall k | j <= k < j + |w|
      ensures !Ends(bs[k] as char)
    {
      assert bs[j + (k - j)] as char == w[k - j];
    }
    TokenEndOver(bs, j, j + |w|);
    assert Chars(bs, j, j + |w|) == w;
  }

  /** bs spells w from j. */
  predicate Spells(bs: seq<byte>, j: nat, w: seq<char>)
  {
    j + |w| <= |bs| && forall k :: 0 <= k < |w| ==> bs[j + k] as char == w[k]
  }

  /** No character of w ends a word. */
  predicate Unbroken(w: seq<char>)
  {
    forall k :: 0 <= k < |w| ==> !Ends(w[k])
  }

  /** Decimal digits and tag names are single words. */
  lemma DigitsUnbroken(w: seq<char>)
    requires AllDigits(w) || (|w| == 2 && w[0] == 'P' && IsDigit(w[1]))
    ensures Unbroken(w)
  {
  }

  lemma {:induction false} TokenEndOver(bs: seq<byte>, j: nat, e: nat)
    requires j <= e < |bs| && Ends(bs[e] as char)
    requires forall k :: j <= k < e ==> !Ends(bs[k] as char)
    ensures TokenEnd(bs, j) == e
    decreases e - j
  {
    if j < e {
      TokenEndOver(bs, j + 1, e);
    }
  }

  /** Separators are only ' ', '\t' and '\n': a tag ended by "\r\n" keeps
      the '\r' in its word. The model's ParseFormat accepts only the exact
      tag names, so here the header fails; Enum.Parse itself trims white
      space around a name, so the source reads such a tag. */
  lemma CarriageReturnKept(bs: seq<byte>, f: Format)
    requires |bs| >= 4 && bs[0] as char == 'P' && bs[1] as char == FormatName(f)[1]
    requires bs[2] as char == '\r' && bs[3] as char == '\n'
    ensures NextWord(bs, 0) == Ok((FormatName(f) + "\r", 3))
    ensures HeaderFields(bs, 0) == Err(UnknownFormat)
  {
    var w := FormatName(f) + "\r";
    forall k | 0 <= k < |w|
      ensures bs[0 + k] as char == w[k]
    {
    }
    WordAt(bs, 0, w);
  }

  // ---------------------------------------------------------------------
  // The header SaveBin writes

  /** `$"{Format}\n{SizeX} {SizeY}\n{(IsPbm ? "" : "255")}\n"`. */
  function BinHeaderText(info: NetpbmInfo): seq<char>
  {
    FormatName(info.format) + "\n" + FormatNat(info.sizeX) + " " + FormatNat(info.sizeY) + "\n"
      + (if IsPbm(info.format) then "" else "255") + "\n"
  }

  /** Where the header SaveBin writes leaves a reader: past the whole
      header, or before its last, empty line for P1 and P2. */
  function HeaderEnd(info: NetpbmInfo): nat
  {
    5 + |FormatNat(info.sizeX)| + |FormatNat(info.sizeY)| + if IsPbm(info.format) then 0 else 4
  }

  /** The bytes SaveBin writes: the header, then the pixel bytes. */
  function Saved(info: NetpbmInfo, body: seq<byte>): seq<byte>
  {
    Ascii(BinHeaderText(info)) + body
  }

  /** ReadHeader reads back the header SaveBin writes, whatever follows it:
      the tag and the sizes, 255 as the max colour unless IsPbm (where it
      stays 0), and the stream at the start of the pixel bytes. */
  lemma HeaderRoundTrip(info: NetpbmInfo, body: seq<byte>)
    requires info.sizeX <= Int32Max && info.sizeY <= Int32Max
    ensures HeaderFields(Saved(info, body), 0)
      == Ok((info.(colorMaxValue := if IsPbm(info.format) then 0 else 255), HeaderEnd(info)))
  {
    LaidOut(info, body);
    HeaderFilled(info);
    HeaderWordsEnd(info);
    ReadHeaderWords(Saved(info, body), HeaderWords(info),
      info.(colorMaxValue := if IsPbm(info.format) then 0 else 255), HeaderEnd(info));
  }

  /** The words of a header in the order they are read: the tag, SizeX,
      SizeY and, unless IsPbm, "255". */
  function HeaderWords(info: NetpbmInfo): seq<seq<char>>
  {
    [FormatName(info.format), FormatNat(info.sizeX), FormatNat(info.sizeY)]
      + if IsPbm(info.format) then [] else ["255"]
  }

  /** The words ws laid out in bs from p: each non-empty, with no byte that
      ends a word, followed by a separator; the last by a newline. */
  predicate LaidWords(bs: seq<byte>, p: nat, ws: seq<seq<char>>)
    decreases |ws|
  {
    && |ws| > 0 && 0 < |ws[0]| && Unbroken(ws[0]) && p + |ws[0]| < |bs| && Spells(bs, p, ws[0])
    && if |ws| == 1 then bs[p + |ws[0]|] as char == '\n'
       else IsSeparator(bs[p + |ws[0]|] as char) && LaidWords(bs, p + |ws[0]| + 1, ws[1..])
  }

  /** Where words laid out from p end: past the byte after the last. */
  function WordsEnd(p: nat, ws: seq<seq<char>>): nat
    decreases |ws|
  {
    if ws == [] then p else WordsEnd(p + |ws[0]| + 1, ws[1..])
  }

  /** The words ws fill the fields from `stage` on: each is accepted and
      the last one, and only it, completes the header. */
  predicate Fits(stage: nat, ws: seq<seq<char>>, info: NetpbmInfo)
    decreases |ws|
  {
    && stage < 4 && |ws| > 0 && Assign(stage, ws[0], info).Ok?
    && var next := Assign(stage, ws[0], info).value;
       if Complete(stage + 1, next.format) then |ws| == 1
       else |ws| > 1 && Fits(stage + 1, ws[1..], next)
  }

  /** The record the words fill in. */
  function Filled(stage: nat, ws: seq<seq<char>>, info: NetpbmInfo): NetpbmInfo
    requires Fits(stage, ws, info)
    decreases |ws|
  {
    var next := Assign(stage, ws[0], info).value;
    if Complete(stage + 1, next.format) then next else Filled(stage + 1, ws[1..], next)
  }

  /** Reading fields from bytes that lay out words is filling the fields
      with those words, one after another. */
  lemma {:induction false} ReadWords(bs: seq<byte>, p: nat, stage: nat, info: NetpbmInfo, ws: seq<seq<char>>)
    requires p <= |bs| && LaidWords(bs, p, ws) && Fits(stage, ws, info)
    ensures FieldsFrom(bs, p, stage, info) == Ok((Filled(stage, ws, info), WordsEnd(p, ws)))
    decreases |ws|
  {
    var w := ws[0];
    WordAt(bs, p, w);
    var next := Assign(stage, w, info).value;
    if Complete(stage + 1, next.format) {
      assert ws[1..] == [];
    } else {
      ReadWords(bs, p + |w| + 1, stage + 1, next, ws[1..]);
    }
  }

  /** The same for a whole header read from the start. */
  lemma ReadHeaderWords(bs: seq<byte>, ws: seq<seq<char>>, r: NetpbmInfo, e: nat)
    requires LaidWords(bs, 0, ws) && Fits(0, ws, DefaultInfo)
    requires Filled(0, ws, DefaultInfo) == r && WordsEnd(0, ws) == e
    ensures HeaderFields(bs, 0) == Ok((r, e))
  {
    ReadWords(bs, 0, 0, DefaultInfo, ws);
  }

  /** The words SaveBin writes fill in its record, with 255 as the max
      colour unless IsPbm. */
  lemma HeaderFilled(info: NetpbmInfo)
    requires info.sizeX <= Int32Max && info.sizeY <= Int32Max
    ensures Fits(0, HeaderWords(info), DefaultInfo)
    ensures Filled(0, HeaderWords(info), DefaultInfo)
      == info.(colorMaxValue := if IsPbm(info.format) then 0 else 255)
  {
    var ws := HeaderWords(info);
    var i0 := DefaultInfo.(format := info.format);
    var i1 := i0.(sizeX := info.sizeX);
    var i2 := i1.(sizeY := info.sizeY);
    ParseFormatName(info.format);
    ParseIntFormatNat(info.sizeX);
    ParseIntFormatNat(info.sizeY);
    Parse255();
    assert Assign(0, ws[0], DefaultInfo) == Ok(i0);
    assert Assign(1, ws[1..][0], i0) == Ok(i1);
    assert Assign(2, ws[1..][1..][0], i1) == Ok(i2);
    if IsPbm(info.format) {
      assert ws[1..][1..][1..] == [];
      assert Fits(2, ws[1..][1..], i1) && Filled(2, ws[1..][1..], i1) == i2;
    } else {
      assert ws[1..][1..][1..] == ["255"];
      assert Assign(3, "255", i2) == Ok(i2.(colorMaxValue := 255));
      assert Fits(3, ["255"], i2) && Filled(3, ["255"], i2) == i2.(colorMaxValue := 255);
      assert Fits(2, ws[1..][1..], i1) && Filled(2, ws[1..][1..], i1) == i2.(colorMaxValue := 255);
    }
    assert Fits(1, ws[1..], i0) && Filled(1, ws[1..], i0) == Filled(2, ws[1..][1..], i1);
  }

  /** The words SaveBin writes end where HeaderEnd says. */
  lemma HeaderWordsEnd(info: NetpbmInfo)
    ensures WordsEnd(0, HeaderWords(info)) == HeaderEnd(info)
  {
    var ws := HeaderWords(info);
    var x, y := FormatNat(info.sizeX), FormatNat(info.sizeY);
    var c := 4 + |x| + |y|;
    if IsPbm(info.format) {
      assert ws[1..][1..][1..] == [];
      assert WordsEnd(c + 1, ws[1..][1..][1..]) == c + 1;
    } else {
      assert ws[1..][1..][1..] == ["255"];
      assert ["255"][1..] == [];
      assert WordsEnd(c + 5, ["255"][1..]) == c + 5;
      assert WordsEnd(c + 1, ["255"]) == c + 5;
    }
    assert WordsEnd(3 + |x| + 1, ws[1..][1..]) == HeaderEnd(info);
    assert WordsEnd(3, ws[1..]) == HeaderEnd(info);
  }

  /** The header SaveBin writes lays out its words. */
  lemma LaidOut(info: NetpbmInfo, body: seq<byte>)
    ensures LaidWords(Saved(info, body), 0, HeaderWords(info))
  {
    var x, y := FormatNat(info.sizeX), FormatNat(info.sizeY);
    var c := 4 + |x| + |y|;
    TagPlaced(info, body);
    WidthPlaced(info, body);
    HeightPlaced(info, body);
    if !IsPbm(info.format) {
      MaxPlaced(info, body);
    }
    WordsLaid(Saved(info, body), info);
  }

  /** Bytes holding the header words at the places SaveBin puts them lay
      out those words. */
  lemma WordsLaid(bs: seq<byte>, info: NetpbmInfo)
    requires var tag, x, y := FormatName(info.format), FormatNat(info.sizeX), FormatNat(info.sizeY);
      var c := 4 + |x| + |y|;
      && 2 < |bs| && Spells(bs, 0, tag) && bs[2] as char == '\n'
      && 3 + |x| < |bs| && Spells(bs, 3, x) && bs[3 + |x|] as char == ' '
      && c < |bs| && Spells(bs, 4 + |x|, y) && bs[c] as char == '\n'
      && (!IsPbm(info.format) ==> c + 4 < |bs| && Spells(bs, c + 1, "255") && bs[c + 4] as char == '\n')
    ensures LaidWords(bs, 0, HeaderWords(info))
  {
    var ws := HeaderWords(info);
    var tag, x, y := FormatName(info.format), FormatNat(info.sizeX), FormatNat(info.sizeY);
    var c := 4 + |x| + |y|;
    DigitsUnbroken(tag);
    DigitsUnbroken(x);
    DigitsUnbroken(y);
    if IsPbm(info.format) {
      assert ws[1..][1..] == [y];
      assert LaidWords(bs, c - |y|, [y]);
    } else {
      DigitsUnbroken("255");
      assert ws[1..][1..] == [y, "255"];
      assert LaidWords(bs, c + 1, ["255"]);
      assert [y, "255"][1..] == ["255"];
      assert LaidWords(bs, c - |y|, [y, "255"]);
    }
    assert LaidWords(bs, 3, ws[1..]);
  }

  /** The tag, at the start, then a newline. */
  lemma TagPlaced(info: NetpbmInfo, body: seq<byte>)
    ensures var bs := Saved(info, body);
      2 < |bs| && Spells(bs, 0, FormatName(info.format)) && bs[2] as char == '\n'
  {
    var tag := FormatName(info.format);
    var rest := "\n" + FormatNat(info.sizeX) + " " + FormatNat(info.sizeY) + "\n"
      + (if IsPbm(info.format) then "" else "255") + "\n";
    assert BinHeaderText(info) == [] + tag + rest;
    WordPlaced(info, body, [], tag, rest);
  }

  /** SizeX, after the tag line, then a space. */
  lemma WidthPlaced(info: NetpbmInfo, body: seq<byte>)
    ensures var bs, x := Saved(info, body), FormatNat(info.sizeX);
      3 + |x| < |bs| && Spells(bs, 3, x) && bs[3 + |x|] as char == ' '
  {
    var a := FormatName(info.format) + "\n";
    var x := FormatNat(info.sizeX);
    var rest := " " + FormatNat(info.sizeY) + "\n" + (if IsPbm(info.format) then "" else "255") + "\n";
    assert |a| == 3;
    assert BinHeaderText(info) == a + x + rest;
    WordPlaced(info, body, a, x, rest);
  }

  /** SizeY, after SizeX and the space, then a newline. */
  lemma HeightPlaced(info: NetpbmInfo, body: seq<byte>)
    ensures var bs, x, y := Saved(info, body), FormatNat(info.sizeX), FormatNat(info.sizeY);
      4 + |x| + |y| < |bs| && Spells(bs, 4 + |x|, y) && bs[4 + |x| + |y|] as char == '\n'
  {
    var a := FormatName(info.format) + "\n" + FormatNat(info.sizeX) + " ";
    var y := FormatNat(info.sizeY);
    var rest := "\n" + (if IsPbm(info.format) then "" else "255") + "\n";
    assert |a| == 4 + |FormatNat(info.sizeX)|;
    assert BinHeaderText(info) == a + y + rest;
    WordPlaced(info, body, a, y, rest);
  }

  /** "255" on the third line, then a newline, unless IsPbm. */
  lemma MaxPlaced(info: NetpbmInfo, body: seq<byte>)
    requires !IsPbm(info.format)
    ensures var bs, c := Saved(info, body), 4 + |FormatNat(info.sizeX)| + |FormatNat(info.sizeY)|;
      c + 4 < |bs| && Spells(bs, c + 1, "255") && bs[c + 4] as char == '\n'
  {
    var a := FormatName(info.format) + "\n" + FormatNat(info.sizeX) + " " + FormatNat(info.sizeY) + "\n";
    assert |a| == 5 + |FormatNat(info.sizeX)| + |FormatNat(info.sizeY)|;
    assert BinHeaderText(info) == a + "255" + "\n";
    WordPlaced(info, body, a, "255", "\n");
  }

  /** The reader stops past the whole header text, or one byte short of
      it for P1 and P2. */
  lemma HeaderLength(info: NetpbmInfo)
    ensures |BinHeaderText(info)| == HeaderEnd(info) + if IsPbm(info.format) then 1 else 0
  {
  }

  /** Only 7-bit characters. */
  predicate IsAscii(w: seq<char>)
  {
    forall k :: 0 <= k < |w| ==> w[k] as int < 128
  }

  /** The bytes of a 7-bit word inside the header text spell it, followed
      by the byte of the 7-bit character after it. */
  lemma WordPlaced(info: NetpbmInfo, body: seq<byte>, a: seq<char>, w: seq<char>, b: seq<char>)
    requires BinHeaderText(info) == a + w + b
    requires IsAscii(w) && |b| > 0 && b[0] as int < 128
    ensures var bs := Saved(info, body);
      |a| + |w| < |bs| && Spells(bs, |a|, w) && bs[|a| + |w|] as char == b[0]
  {
    var t := a + w + b;
    var bs := Saved(info, body);
    assert bs == Ascii(t) + body;
    forall k | 0 <= k < |w|
      ensures bs[|a| + k] as char == w[k]
    {
      assert t[|a| + k] == w[k];
    }
    assert t[|a| + |w|] == b[0];
  }

  // ---------------------------------------------------------------------
  // The byte-level state machine

  /** The loop variables of ReadHeader between two bytes. `wordEnd` is set
      and cleared within one turn, so it is not part of them. */
  datatype Scanner = Scanner(comment: bool, word: seq<char>, stage: nat, info: NetpbmInfo)

  /** ReadHeader's loop, one byte per step, from the byte at p. */
  function Scan(bs: seq<byte>, p: nat, st: Scanner): (r: Result<(NetpbmInfo, nat)>)
    requires p <= |bs| && st.stage < 4
    decreases |bs| - p
  {
    if p == |bs| then Err(EndOfInput)
    else
      var letter := bs[p] as char;
      if st.comment then Scan(bs, p + 1, st.(comment := letter != '\n'))
      else if !Ends(letter) then Scan(bs, p + 1, st.(word := st.word + [letter]))
      else if st.word == [] then Scan(bs, p + 1, st.(comment := letter == '#'))
      else
        var next :- Assign(st.stage, st.word, st.info);
        if Complete(st.stage + 1, next.format) then
          if letter == '\n' then Ok((next, p + 1))
          else
            var q :- LineEnd(bs, p + 1);
            Ok((next, q))
        else Scan(bs, p + 1, Scanner(letter == '#', [], st.stage + 1, next))
  }

  /** Inside a comment the machine skips through the end of the line. */
  lemma {:induction false} CommentScan(bs: seq<byte>, p: nat, st: Scanner)
    requires p <= |bs| && st.stage < 4 && st.comment
    ensures LineEnd(bs, p).Err? ==> Scan(bs, p, st) == Err(EndOfInput)
    ensures LineEnd(bs, p).Ok? ==> Scan(bs, p, st) == Scan(bs, LineEnd(bs, p).value, st.(comment := false))
    decreases |bs| - p
  {
    if p < |bs| && bs[p] as char != '\n' {
      CommentScan(bs, p + 1, st);
    }
  }

  /** Between words the machine passes over separators and comments:
      empty words assign nothing. */
  lemma {:induction false} GapScan(bs: seq<byte>, p: nat, st: Scanner)
    requires p <= |bs| && st.stage < 4 && !st.comment && st.word == []
    ensures SkipBlank(bs, p).Err? ==> Scan(bs, p, st) == Err(EndOfInput)
    ensures SkipBlank(bs, p).Ok? ==> Scan(bs, p, st) == Scan(bs, SkipBlank(bs, p).value, st)
    decreases |bs| - p
  {
    if p < |bs| {
      var letter := bs[p] as char;
      if letter == '#' {
        CommentScan(bs, p + 1, st.(comment := true));
        if LineEnd(bs, p + 1).Ok? {
          GapScan(bs, LineEnd(bs, p + 1).value, st);
        }
      } else if IsSeparator(letter) {
        GapScan(bs, p + 1, st);
      }
    }
  }

  /** Inside a word the machine collects the bytes up to the one that ends
      it; a word the input ends inside leaves the machine reading on. */
  lemma {:induction false} WordScan(bs: seq<byte>, j: nat, st: Scanner)
    requires j <= |bs| && st.stage < 4 && !st.comment
    ensures TokenEnd(bs, j) == |bs| ==> Scan(bs, j, st) == Err(EndOfInput)
    ensures TokenEnd(bs, j) < |bs| ==>
      Scan(bs, j, st) == Scan(bs, TokenEnd(bs, j), st.(word := st.word + Chars(bs, j, TokenEnd(bs, j))))
    decreases |bs| - j
  {
    var e := TokenEnd(bs, j);
    if j == e {
      assert st.word + Chars(bs, j, e) == st.word;
    } else {
      var letter := bs[j] as char;
      WordScan(bs, j + 1, st.(word := st.word + [letter]));
      CharsCons(bs, j, e);
      assert st.word + [letter] + Chars(bs, j + 1, e) == st.word + Chars(bs, j, e);
    }
  }

  lemma CharsCons(bs: seq<byte>, j: nat, e: nat)
    requires j < e <= |bs|
    ensures Chars(bs, j, e) == [bs[j] as char] + Chars(bs, j + 1, e)
  {
    assert Chars(bs, j, e) == [bs[j] as char] + Chars(bs, j + 1, e);
  }

  /** From a word boundary the machine reaches the end of the next
      non-empty word holding that word. */
  lemma WordAfterGap(bs: seq<byte>, p: nat, stage: nat, info: NetpbmInfo)
    requires p <= |bs| && stage < 4
    ensures NextWord(bs, p).Err? ==> Scan(bs, p, Scanner(false, [], stage, info)) == Err(EndOfInput)
    ensures NextWord(bs, p).Ok? ==>
      Scan(bs, p, Scanner(false, [], stage, info)) == Scan(bs, NextWord(bs, p).value.1, Scanner(false, NextWord(bs, p).value.0, stage, info))
  {
    var st := Scanner(false, [], stage, info);
    GapScan(bs, p, st);
    if SkipBlank(bs, p).Ok? {
      var j := SkipBlank(bs, p).value;
      WordScan(bs, j, st);
      assert [] + Chars(bs, j, TokenEnd(bs, j)) == Chars(bs, j, TokenEnd(bs, j));
    }
  }

  /** The word-level steps after a word ended at e: the field it fills,
      then either the end of the header or the rest of the fields. */
  function AfterWord(bs: seq<byte>, e: nat, word: seq<char>, stage: nat, info: NetpbmInfo): Result<(NetpbmInfo, nat)>
    requires e < |bs| && stage < 4
  {
    var next :- Assign(stage, word, info);
    if Complete(stage + 1, next.format) then
      var q :- Finish(bs, e);
      Ok((next, q))
    else
      var q :- Resume(bs, e);
      FieldsFrom(bs, q, stage + 1, next)
  }

  /** The byte that ends a non-empty word: the field is field, and the
      machine either stops or goes on from a word boundary. */
  lemma TermScan(bs: seq<byte>, e: nat, word: seq<char>, stage: nat, info: NetpbmInfo)
    requires e < |bs| && stage < 4 && Ends(bs[e] as char) && word != []
    requires Assign(stage, word, info).Ok? && !Complete(stage + 1, Assign(stage, word, info).value.format)
    ensures Resume(bs, e).Err? ==> Scan(bs, e, Scanner(false, word, stage, info)) == Err(EndOfInput)
    ensures Resume(bs, e).Ok? ==>
      Scan(bs, e, Scanner(false, word, stage, info))
        == Scan(bs, Resume(bs, e).value, Scanner(false, [], stage + 1, Assign(stage, word, info).value))
  {
    if bs[e] as char == '#' {
      CommentScan(bs, e + 1, Scanner(true, [], stage + 1, Assign(stage, word, info).value));
    }
  }

  /** The byte that ends the last field: the machine stops where Finish says. */
  lemma LastScan(bs: seq<byte>, e: nat, word: seq<char>, stage: nat, info: NetpbmInfo)
    requires e < |bs| && stage < 4 && Ends(bs[e] as char) && word != []
    requires Assign(stage, word, info).Ok? ==> Complete(stage + 1, Assign(stage, word, info).value.format)
    ensures Scan(bs, e, Scanner(false, word, stage, info)) == AfterWord(bs, e, word, stage, info)
  {
  }

  /** The byte-level machine reads the same header as the word-level
      reading, from any stage on. */
  lemma {:induction false} FieldsScan(bs: seq<byte>, p: nat, stage: nat, info: NetpbmInfo)
    requires p <= |bs| && stage < 4
    ensures Scan(bs, p, Scanner(false, [], stage, info)) == FieldsFrom(bs, p, stage, info)
    decreases 4 - stage
  {
    WordAfterGap(bs, p, stage, info);
    if NextWord(bs, p).Ok? {
      var we := NextWord(bs, p).value;
      AfterWordScan(bs, we.1, we.0, stage, info);
    }
  }

  /** The same from the end of a non-empty word. */
  lemma {:induction false} AfterWordScan(bs: seq<byte>, e: nat, word: seq<char>, stage: nat, info: NetpbmInfo)
    requires e < |bs| && stage < 4 && Ends(bs[e] as char) && word != []
    ensures Scan(bs, e, Scanner(false, word, stage, info)) == AfterWord(bs, e, word, stage, info)
    decreases 4 - stage, 0
  {
    var next := Assign(stage, word, info);
    if next.Ok? && !Complete(stage + 1, next.value.format) {
      TermScan(bs, e, word, stage, info);
      if Resume(bs, e).Ok? {
        FieldsScan(bs, Resume(bs, e).value, stage + 1, next.value);
      }
    } else {
      LastScan(bs, e, word, stage, info);
    }
  }

  /** Reading on through the end of the line, as ReadHeader does once the
      last field is in; EndOfInput where the source reads on forever. */
  method SkipLine(stream: ByteStream) returns (r: Result<nat>)
    requires stream.Valid()
    modifies stream`pos
    ensures stream.Valid()
    ensures r == LineEnd(stream.data, old(stream.pos))
    ensures r.Ok? ==> stream.pos == r.value
  {
    ghost var from := stream.pos;
    while true
      invariant stream.Valid() && from <= stream.pos
      invariant LineEnd(stream.data, stream.pos) == LineEnd(stream.data, from)
      decreases |stream.data| - stream.pos
    {
      var c := stream.ReadByte();
      if c < 0 {
        return Err(EndOfInput);
      }
      if c as char == '\n' {
        return Ok(stream.pos);
      }
    }
  }

  /** The switch over `stage` in ReadHeader. */
  method AssignField(stage: nat, currWord: seq<char>, result: NetpbmInfo) returns (r: Result<NetpbmInfo>)
    requires stage < 4
    ensures r == Assign(stage, currWord, result)
  {
    if stage == 0 {
      var f := ParseFormat(currWord);
      if f.Err? { return Err(f.error); }
      r := Ok(result.(format := f.value));
    } else if stage == 1 {
      var n := ParseInt(currWord);
      if n.Err? { return Err(n.error); }
      r := Ok(result.(sizeX := n.value));
    } else if stage == 2 {
      var n := ParseInt(currWord);
      if n.Err? { return Err(n.error); }
      r := Ok(result.(sizeY := n.value));
    } else {
      var m := ParseByte(currWord);
      if m.Err? { return Err(m.error); }
      r := Ok(result.(colorMaxValue := m.value));
    }
  }

  /** ReadHeader, on the stream from its position: the header record, with
      the stream left where the pixel data begins. The source reads on at
      the end of the stream (ReadByte gives -1 forever); here that ends the
      read with EndOfInput. */
  method ReadHeader(stream: ByteStream) returns (r: Result<NetpbmInfo>)
    requires stream.Valid()
    modifies stream`pos
    ensures stream.Valid()
    ensures HeaderFields(stream.data, old(stream.pos)).Err? ==> r == Err(HeaderFields(stream.data, old(stream.pos)).error)
    ensures HeaderFields(stream.data, old(stream.pos)).Ok? ==>
      && r == Ok(HeaderFields(stream.data, old(stream.pos)).value.0)
      && stream.pos == HeaderFields(stream.data, old(stream.pos)).value.1
  {
    ghost var bs, start := stream.data, stream.pos;
    var result := DefaultInfo;
    var currWord: seq<char> := [];
    var comment := false;
    var wordEnd := false;
    var stage := 0;
    FieldsScan(bs, start, 0, DefaultInfo);
    while true
      invariant stream.Valid() && stream.data == bs
      invariant stage < 4 && !wordEnd
      invariant Scan(bs, stream.pos, Scanner(comment, currWord, stage, result)) == HeaderFields(bs, start)
      decreases |bs| - stream.pos
    {
      ghost var p, st := stream.pos, Scanner(comment, currWord, stage, result);
      var b := stream.ReadByte();
      if b < 0 {
        return Err(EndOfInput);
      }
      var letter := b as char;
      assert letter == bs[p] as char;
      if comment {
        comment := letter != '\n';
        assert Scan(bs, p, st) == Scan(bs, p + 1, st.(comment := comment));
        continue;
      }
      if letter == '#' {
        comment, wordEnd := true, true;
      } else if letter == ' ' || letter == '\t' || letter == '\n' {
        wordEnd := true;
      } else {
        currWord := currWord + [letter];
        assert Scan(bs, p, st) == Scan(bs, p + 1, st.(word := currWord));
      }
      if wordEnd {
        wordEnd := false;
        if |currWord| > 0 {
          var field := AssignField(stage, currWord, result);
          if field.Err? {
            return Err(field.error);
          }
          result := field.value;
          stage := stage + 1;
          if (stage == 3 && IsPbm(result.format)) || stage == 4 {
            if letter != '\n' {
              var skipped := SkipLine(stream);
              if skipped.Err? {
                return Err(skipped.error);
              }
            }
            return Ok(result);
          }
          assert Scan(bs, p, st) == Scan(bs, p + 1, Scanner(comment, [], stage, result));
          currWord := [];
        } else {
          assert Scan(bs, p, st) == Scan(bs, p + 1, st.(comment := comment));
        }
      }
    }
  }
}
