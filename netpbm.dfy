/** Netpbm.Load (Netpbm.cs): the format tag at the start of the first line
    of the file chooses between the binary loader and the plain one. */
module Netpbm {
  import opened Common
  import opened NetpbmFormat
  import opened Grid
  import opened BinaryHeader
  import opened NetpbmPlain
  import opened NetpbmBinary

  /** The characters File.ReadLines splits lines at. */
  predicate IsLineBreak(c: char) { c == '\n' || c == '\r' }

  /** File.ReadAllText on the bytes of a file, each byte one character. */
  function ReadAllText(content: seq<byte>): (cs: seq<char>)
    ensures |cs| == |content|
    ensures forall k :: 0 <= k < |cs| ==> cs[k] as int == content[k]
  {
    Chars(content, 0, |content|)
  }

  /** File.ReadLines(path).First().Take(2): the first two characters of
      the first line, fewer when that line is shorter. A file without any
      line makes First() throw. */
  function LeadingTag(cs: seq<char>): (r: Result<seq<char>>)
    ensures r.Err? <==> cs == []
    ensures r.Err? ==> r.error == EmptyFile
    ensures r.Ok? ==> |r.value| <= 2 && |r.value| <= |cs| && r.value == cs[..|r.value|]
    ensures r.Ok? ==> forall k :: 0 <= k < |r.value| ==> !IsLineBreak(r.value[k])
    ensures r.Ok? && |r.value| < 2 ==> |r.value| == |cs| || IsLineBreak(cs[|r.value|])
  {
    if cs == [] then Err(EmptyFile)
    else if IsLineBreak(cs[0]) then Ok([])
    else if |cs| == 1 || IsLineBreak(cs[1]) then Ok(cs[..1])
    else Ok(cs[..2])
  }

  /** `Enum.Parse<Format>(...Take(2))`: the format named at the start of
      the file. A binary header read from the same bytes, when it reads,
      names the same format. */
  function TagFormat(content: seq<byte>): (r: Result<Format>)
    ensures r.Ok? ==> 2 <= |content| && Chars(content, 0, 2) == FormatName(r.value)
    ensures r.Ok? && HeaderFields(content, 0).Ok? ==> HeaderFields(content, 0).value.0.format == r.value
  {
    var tag :- LeadingTag(ReadAllText(content));
    var f :- ParseFormat(tag);
    BinTagAgrees(content, f);
    Ok(f)
  }

  /** Load: the binary loader for a P4, P5 or P6 tag, the plain loader
      for P1, P2 or P3. */
  function Decode(content: seq<byte>): (r: Result<(NetpbmInfo, seq<Color>)>)
    ensures TagFormat(content).Err? ==> r == Err(TagFormat(content).error)
    ensures r.Ok? && IsBin(TagFormat(content).value) ==> r.value.0.format == TagFormat(content).value
  {
    var f :- TagFormat(content);
    if IsBin(f) then DecodeBin(content) else DecodePlain(ReadAllText(content))
  }

  /** Load takes the binary loader exactly when the tag is binary, and the
      plain loader otherwise. */
  lemma LoadDispatch(content: seq<byte>)
    ensures TagFormat(content).Ok? && IsBin(TagFormat(content).value) ==> Decode(content) == DecodeBin(content)
    ensures TagFormat(content).Ok? && !IsBin(TagFormat(content).value) ==> Decode(content) == DecodePlain(ReadAllText(content))
  {
  }

  /** The header of a file whose first line names a binary tag reads, if it
      reads at all, with that same tag: ReadHeader's first word starts at
      the first byte, and Enum.Parse accepts only a word of two characters. */
  lemma BinTagAgrees(content: seq<byte>, f: Format)
    requires 2 <= |content| && Chars(content, 0, 2) == FormatName(f)
    ensures HeaderFields(content, 0).Ok? ==> HeaderFields(content, 0).value.0.format == f
  {
    if HeaderFields(content, 0).Ok? {
      var we := NextWord(content, 0).value;
      NextWordShape(content, 0);
      var next := Assign(0, we.0, DefaultInfo).value;
      assert SkipBlank(content, 0) == Ok(0);
      assert FormatName(next.format) == we.0 && |we.0| == 2;
      assert we.0[1] as int == content[1];
      assert next.format == f;
      if !Complete(1, next.format) {
        FieldsKeepFormat(content, Resume(content, we.1).value, 1, next);
      }
    }
  }

  /** The fields after the tag leave the tag as it is. */
  lemma {:induction false} FieldsKeepFormat(bs: seq<byte>, p: nat, stage: nat, info: NetpbmInfo)
    requires p <= |bs| && 1 <= stage < 4
    ensures FieldsFrom(bs, p, stage, info).Ok? ==> FieldsFrom(bs, p, stage, info).value.0.format == info.format
    decreases 4 - stage
  {
    if FieldsFrom(bs, p, stage, info).Ok? {
      var we := NextWord(bs, p).value;
      var next := Assign(stage, we.0, info).value;
      if !Complete(stage + 1, next.format) {
        FieldsKeepFormat(bs, Resume(bs, we.1).value, stage + 1, next);
      }
    }
  }

  /** Load, given the bytes of the file: the header and the grid. A plain
      file fills every cell; a binary one fills the cells its pixel data
      reaches and leaves the others default(Color). */
  method Load(content: seq<byte>) returns (r: Result<(NetpbmInfo, array2<Color>)>)
    ensures r.Ok? <==> Decode(content).Ok?
    ensures r.Err? ==> Decode(content) == Err(r.error)
    ensures r.Ok? ==>
      && r.value.0 == Decode(content).value.0
      && fresh(r.value.1)
      && r.value.1.Length0 == r.value.0.sizeX && r.value.1.Length1 == r.value.0.sizeY
      && HoldsPrefix(r.value.1, Decode(content).value.1)
  {
    var text := ReadAllText(content);
    var tag := LeadingTag(text);
    if tag.Err? { return Err(tag.error); }
    var format := ParseFormat(tag.value);
    if format.Err? { return Err(format.error); }
    if IsBin(format.value) {
      assert TagFormat(content) == format;
      r := LoadBin(content);
    } else {
      r := LoadPlain(text);
      if r.Ok? {
        HoldsIsPrefix(r.value.1, DecodePlain(text).value.1);
      }
    }
  }

  /** A grid that holds all its pixels holds them as a prefix too. */
  lemma HoldsIsPrefix(grid: array2<Color>, pixels: seq<Color>)
    requires Holds(grid, pixels)
    ensures HoldsPrefix(grid, pixels)
  {
  }

  /** The tag is read from the first two bytes, whatever follows them: a
      file that starts with a tag name has that format, and one that
      starts "PX" fails with an unknown format before either loader runs. */
  lemma TagOfFirstBytes(content: seq<byte>, f: Format)
    requires 2 <= |content|
    ensures Chars(content, 0, 2) == FormatName(f) ==> TagFormat(content) == Ok(f)
    ensures Chars(content, 0, 2) == "PX" ==> Decode(content) == Err(UnknownFormat)
  {
    var cs := ReadAllText(content);
    assert cs[..2] == Chars(content, 0, 2);
    if Chars(content, 0, 2) == FormatName(f) || Chars(content, 0, 2) == "PX" {
      assert cs[0] == 'P' && !IsLineBreak(cs[1]);
      assert LeadingTag(cs) == Ok(Chars(content, 0, 2));
    }
  }
}
