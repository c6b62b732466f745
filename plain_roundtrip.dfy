/** What LoadPlain makes of the text SavePlain writes. The text is viewed
    as a sequence of items, each a word with the blanks before and after
    it; Pop then returns the words one by one. */
module PlainRoundTrip {
  import opened Common
  import opened NetpbmFormat
  import opened WordsReader
  import opened NetpbmPlain
  import opened Grid

  // ---------------------------------------------------------------------
  // Text as a sequence of words

  /** A word of the output with the blanks written before it and after it. */
  datatype Item = Item(lead: seq<char>, word: seq<char>, sep: seq<char>)

  /** Only blanks. */
  predicate Blank(t: seq<char>)
    decreases |t|
  {
    t == [] || (IsSpace(t[0]) && Blank(t[1..]))
  }

  /** No blank and no '#'. */
  predicate Unbroken(w: seq<char>)
    decreases |w|
  {
    w == [] || (!IsSpace(w[0]) && w[0] != '#' && Unbroken(w[1..]))
  }

  /** A token Pop returns whole. */
  predicate IsWord(w: seq<char>) { |w| > 0 && Unbroken(w) }

  /** A word with the blanks around it, as Pop needs them. */
  predicate GoodItem(it: Item) { Blank(it.lead) && IsWord(it.word) && |it.sep| > 0 && Blank(it.sep) }

  lemma {:induction false} BlankAt(t: seq<char>, m: nat)
    requires Blank(t) && m < |t|
    ensures IsSpace(t[m])
    decreases m
  {
    if m > 0 {
      BlankAt(t[1..], m - 1);
    }
  }

  lemma {:induction false} UnbrokenAt(w: seq<char>, m: nat)
    requires Unbroken(w) && m < |w|
    ensures !IsSpace(w[m]) && w[m] != '#'
    decreases m
  {
    if m > 0 {
      UnbrokenAt(w[1..], m - 1);
    }
  }

  /** Decimal text is a word. */
  lemma {:induction false} DigitsUnbroken(w: seq<char>)
    requires AllDigits(w)
    ensures Unbroken(w)
    decreases |w|
  {
    if w != [] {
      assert AllDigits(w[1..]) by {
        forall k | 0 <= k < |w[1..]|
          ensures IsDigit(w[1..][k])
        {
          assert w[1..][k] == w[k + 1];
        }
      }
      DigitsUnbroken(w[1..]);
    }
  }

  function ItemText(it: Item): seq<char> { it.lead + it.word + it.sep }

  function Text(items: seq<Item>): seq<char>
  {
    if items == [] then [] else Text(items[..|items| - 1]) + ItemText(items[|items| - 1])
  }

  /** Where Pop leaves the cursor after the first i words: on the first
      blank after word i - 1. */
  function Cur(items: seq<Item>, i: nat): (c: nat)
    requires i <= |items|
    ensures c <= |Text(items)|
  {
    if i == 0 then 0
    else
      CurBound(items, i);
      |Text(items[..i - 1])| + |items[i - 1].lead| + |items[i - 1].word|
  }

  lemma CurBound(items: seq<Item>, i: nat)
    requires 0 < i <= |items|
    ensures |Text(items[..i - 1])| + |ItemText(items[i - 1])| <= |Text(items)|
  {
    TextSnoc(items, i - 1);
    TextAppend(items[..i], items[i..]);
    assert items[..i] + items[i..] == items;
  }

  lemma {:induction false} TextAppend(a: seq<Item>, b: seq<Item>)
    ensures Text(a + b) == Text(a) + Text(b)
    decreases |b|
  {
    if b != [] {
      var b' := b[..|b| - 1];
      assert (a + b)[..|a + b| - 1] == a + b';
      TextAppend(a, b');
    } else {
      assert a + b == a;
    }
  }

  /** Pop from the last k characters of `a`, all blanks: the blanks
      before the item's word are skipped, its word is returned and the
      cursor is left on its separator. */
  lemma PopAcross(s: seq<char>, c: nat, a: seq<char>, k: nat, it: Item, rest: seq<char>)
    requires s == a + ItemText(it) + rest && k <= |a| && c == |a| - k
    requires Blank(a[|a| - k..]) && GoodItem(it)
    ensures PopSpec(s, c) == (it.word, |a| + |it.lead| + |it.word|)
  {
    var j := |a| + |it.lead|;
    var e := j + |it.word|;
    GapBlank(s, c, a, k, it, rest);
    WordInPlace(s, a, it, rest);
    assert s[e] == it.sep[0];
    PopWord(s, c, j, e);
  }

  lemma GapBlank(s: seq<char>, c: nat, a: seq<char>, k: nat, it: Item, rest: seq<char>)
    requires s == a + ItemText(it) + rest && k <= |a| && c == |a| - k
    requires Blank(a[|a| - k..]) && Blank(it.lead)
    ensures forall m :: c <= m < |a| + |it.lead| ==> IsSpace(s[m])
  {
    forall m | c <= m < |a| + |it.lead|
      ensures IsSpace(s[m])
    {
      if m < |a| {
        assert s[m] == a[|a| - k..][m - c];
        BlankAt(a[|a| - k..], m - c);
      } else {
        assert s[m] == it.lead[m - |a|];
        BlankAt(it.lead, m - |a|);
      }
    }
  }

  lemma WordInPlace(s: seq<char>, a: seq<char>, it: Item, rest: seq<char>)
    requires s == a + ItemText(it) + rest && IsWord(it.word)
    ensures s[|a| + |it.lead|..|a| + |it.lead| + |it.word|] == it.word
    ensures forall m :: |a| + |it.lead| <= m < |a| + |it.lead| + |it.word| ==> !IsSpace(s[m]) && s[m] != '#'
  {
    var j := |a| + |it.lead|;
    forall m | j <= m < j + |it.word|
      ensures s[m] == it.word[m - j] && !IsSpace(s[m]) && s[m] != '#'
    {
      UnbrokenAt(it.word, m - j);
    }
    assert s[j..j + |it.word|] == it.word;
  }

  /** Popping from the cursor after i words returns word i. */
  lemma PopItem(items: seq<Item>, i: nat)
    requires i < |items| && GoodItem(items[i]) && (i > 0 ==> GoodItem(items[i - 1]))
    ensures PopSpec(Text(items), Cur(items, i)) == (items[i].word, Cur(items, i + 1))
  {
    if i == 0 {
      PopFirst(items);
    } else {
      PopLater(items, i);
    }
  }

  lemma PopFirst(items: seq<Item>)
    requires 0 < |items| && GoodItem(items[0])
    ensures PopSpec(Text(items), 0) == (items[0].word, Cur(items, 1))
  {
    var rest := Text(items[1..]);
    TextFirst(items);
    CurAfter(items, 0);
    PopAcross(Text(items), 0, [], 0, items[0], rest);
    var r := PopSpec(Text(items), 0);
    assert r.0 == items[0].word;
    assert r.1 == Cur(items, 1);
  }

  lemma PopLater(items: seq<Item>, i: nat)
    requires 0 < i < |items| && GoodItem(items[i]) && GoodItem(items[i - 1])
    ensures PopSpec(Text(items), Cur(items, i)) == (items[i].word, Cur(items, i + 1))
  {
    var a := Text(items[..i]);
    var rest := Text(items[i + 1..]);
    TextAround(items, i);
    CurAfter(items, i);
    CurBefore(items, i);
    SepEnds(items, i);
    var sep := items[i - 1].sep;
    var k := |sep|;
    assert Blank(sep);
    assert a[|a| - k..] == sep;
    PopAcross(Text(items), Cur(items, i), a, k, items[i], rest);
    var r := PopSpec(Text(items), Cur(items, i));
    assert r.0 == items[i].word;
    assert r.1 == Cur(items, i + 1);
  }

  /** The whole text is what comes before item i, item i, and what follows. */
  lemma TextAround(items: seq<Item>, i: nat)
    requires i < |items|
    ensures Text(items) == Text(items[..i]) + ItemText(items[i]) + Text(items[i + 1..])
  {
    SplitAt(items, i);
    TextAppend(items[..i + 1], items[i + 1..]);
    TextSnoc(items, i);
  }

  lemma TextFirst(items: seq<Item>)
    requires 0 < |items|
    ensures Text(items) == [] + ItemText(items[0]) + Text(items[1..])
    ensures |Text(items[..0])| == 0
  {
    assert items[..0] == [];
    TextAround(items, 0);
  }

  lemma CurAfter(items: seq<Item>, i: nat)
    requires i < |items|
    ensures Cur(items, i + 1) == |Text(items[..i])| + |items[i].lead| + |items[i].word|
  {
  }

  lemma CurBefore(items: seq<Item>, i: nat)
    requires 0 < i <= |items|
    ensures Cur(items, i) + |items[i - 1].sep| == |Text(items[..i])|
  {
    TextSnoc(items, i - 1);
  }

  /** The text of the first i items ends with the separator of item i - 1. */
  lemma SepEnds(items: seq<Item>, i: nat)
    requires 0 < i <= |items|
    ensures |items[i - 1].sep| <= |Text(items[..i])|
    ensures Text(items[..i])[|Text(items[..i])| - |items[i - 1].sep|..] == items[i - 1].sep
  {
    TextSnoc(items, i - 1);
  }

  /** The text of the first i + 1 items is that of the first i, then item i. */
  lemma TextSnoc(items: seq<Item>, i: nat)
    requires i < |items|
    ensures Text(items[..i + 1]) == Text(items[..i]) + ItemText(items[i])
  {
    var x := items[..i + 1];
    assert x[..|x| - 1] == items[..i];
  }

  lemma SplitAt(items: seq<Item>, i: nat)
    requires i < |items|
    ensures items[..i + 1] + items[i + 1..] == items
    ensures items[..i + 1][..i] == items[..i]
    ensures items[..i + 1][i] == items[i]
    ensures i > 0 ==> items[..i][..i - 1] == items[..i - 1] && items[..i][i - 1] == items[i - 1]
  {
  }

  /** Before a word is popped the reader is not IsEmpty. */
  lemma CurInside(items: seq<Item>, i: nat)
    requires i < |items| && |items[i].word| > 0 && |items[i].sep| > 0
    ensures Cur(items, i) + 1 < |Text(items)|
  {
    TextAround(items, i);
    if i > 0 {
      CurBefore(items, i);
    }
  }

  /** After the last word the cursor is its separator's length from the end. */
  lemma CurAtEnd(items: seq<Item>)
    requires |items| > 0
    ensures Cur(items, |items|) + |items[|items| - 1].sep| == |Text(items)|
  {
    CurBefore(items, |items|);
    assert items[..|items|] == items;
  }

  // ---------------------------------------------------------------------
  // The items SavePlain writes

  /** How many header lines a format has: no max-colour line when IsPbm. */
  function HeaderWidth(f: Format): nat { if IsPbm(f) then 3 else 4 }

  function HeaderItems(info: NetpbmInfo, nl: seq<char>): (items: seq<Item>)
    ensures |items| == HeaderWidth(info.format)
  {
    [Item([], FormatName(info.format), nl), Item([], FormatNat(info.sizeX), nl), Item([], FormatNat(info.sizeY), nl)]
      + (if IsPbm(info.format) then [] else [Item([], "255", nl)])
  }

  /** Words each followed by a space, the first of them preceded by `lead`. */
  function WordItems(lead: seq<char>, ws: seq<seq<char>>): (items: seq<Item>)
    ensures |items| == |ws|
    decreases |ws|
  {
    if ws == [] then [] else [Item(lead, ws[0], " ")] + WordItems([], ws[1..])
  }

  /** How many items n pixels take: Arity(f) * n, counted up. */
  function Span(f: Format, n: nat): nat { if n == 0 then 0 else Span(f, n - 1) + Arity(f) }

  /** Where the words of pixel n start among the items. */
  function Slot(f: Format, n: nat): nat { HeaderWidth(f) + Span(f, n) }

  /** How many words one pixel has. */
  function Arity(f: Format): nat { if f == P3 then 3 else 1 }

  /** The items of the words SavePlain writes for pixels 0 .. m-1. */
  function Body(cells: seq<Color>, f: Format, nl: seq<char>, m: nat): (items: seq<Item>)
    requires IsPlain(f) && m <= |cells|
    decreases m
  {
    if m == 0 then []
    else Body(cells, f, nl, m - 1) + WordItems(Lead(m - 1, nl), PixelWords(f, cells[m - 1]))
  }

  /** Every pixel gives Arity items. */
  lemma {:induction false} BodyLength(cells: seq<Color>, f: Format, nl: seq<char>, m: nat)
    requires IsPlain(f) && m <= |cells|
    ensures |Body(cells, f, nl, m)| == Span(f, m)
    decreases m
  {
    if m > 0 {
      BodyLength(cells, f, nl, m - 1);
    }
  }

  lemma {:induction false} WordItemAt(lead: seq<char>, ws: seq<seq<char>>, j: nat)
    requires j < |ws|
    ensures WordItems(lead, ws)[j] == Item(if j == 0 then lead else [], ws[j], " ")
    decreases j
  {
    if j > 0 {
      WordItemAt([], ws[1..], j - 1);
    }
  }

  /** Item Span(n) + j of the body is word j of pixel n, after a newline
      when it opens a fifth pixel, and followed by one space. */
  lemma {:induction false} BodyAt(cells: seq<Color>, f: Format, nl: seq<char>, m: nat, n: nat, j: nat)
    requires IsPlain(f) && n < m <= |cells| && j < Arity(f)
    ensures Span(f, n) + j < |Body(cells, f, nl, m)|
    ensures Body(cells, f, nl, m)[Span(f, n) + j] == Item(if j == 0 then Lead(n, nl) else [], PixelWords(f, cells[n])[j], " ")
    decreases m
  {
    if n == m - 1 {
      BodyLast(cells, f, nl, n, j);
    } else {
      var k := Span(f, n) + j;
      var before := Body(cells, f, nl, m - 1);
      BodyAt(cells, f, nl, m - 1, n, j);
      assert k < |before|;
      BodyKeeps(cells, f, nl, m, k);
    }
  }

  /** The words of the last pixel close the body. */
  lemma BodyLast(cells: seq<Color>, f: Format, nl: seq<char>, n: nat, j: nat)
    requires IsPlain(f) && n < |cells| && j < Arity(f)
    ensures Span(f, n) + j < |Body(cells, f, nl, n + 1)|
    ensures Body(cells, f, nl, n + 1)[Span(f, n) + j] == Item(if j == 0 then Lead(n, nl) else [], PixelWords(f, cells[n])[j], " ")
  {
    var ws := PixelWords(f, cells[n]);
    var last := WordItems(Lead(n, nl), ws);
    BodyLength(cells, f, nl, n);
    WordItemAt(Lead(n, nl), ws, j);
    PickSecond(Body(cells, f, nl, n + 1), Body(cells, f, nl, n), last, j, Span(f, n) + j);
  }

  /** A later pixel leaves the items before it in place. */
  lemma BodyKeeps(cells: seq<Color>, f: Format, nl: seq<char>, m: nat, k: nat)
    requires IsPlain(f) && 0 < m <= |cells| && k < |Body(cells, f, nl, m - 1)|
    ensures k < |Body(cells, f, nl, m)|
    ensures Body(cells, f, nl, m)[k] == Body(cells, f, nl, m - 1)[k]
  {
    PickFirst(Body(cells, f, nl, m), Body(cells, f, nl, m - 1), WordItems(Lead(m - 1, nl), PixelWords(f, cells[m - 1])), k);
  }

  lemma {:induction false} SpacedText(lead: seq<char>, ws: seq<seq<char>>)
    requires ws != [] || lead == []
    ensures Text(WordItems(lead, ws)) == lead + Spaced(ws)
    decreases |ws|
  {
    if ws != [] {
      var first := Item(lead, ws[0], " ");
      var more := WordItems([], ws[1..]);
      SpacedText([], ws[1..]);
      TextCons(first, more);
      Regroup(lead, ws[0], Spaced(ws[1..]));
    }
  }

  lemma TextCons(it: Item, more: seq<Item>)
    ensures Text([it] + more) == ItemText(it) + Text(more)
  {
    TextAppend([it], more);
    TextSingle(it);
  }

  lemma Regroup(lead: seq<char>, w: seq<char>, t: seq<char>)
    ensures lead + w + " " + ([] + t) == lead + (w + " " + t)
  {
    assert [] + t == t;
  }

  lemma TextSingle(it: Item)
    ensures Text([it]) == ItemText(it)
  {
    assert [it][..0] == [];
  }

  /** The header lines are the header items. */
  lemma HeaderTextItems(info: NetpbmInfo, nl: seq<char>)
    ensures HeaderText(info, nl) == Text(HeaderItems(info, nl))
  {
    var fn, fx, fy := FormatName(info.format), FormatNat(info.sizeX), FormatNat(info.sizeY);
    var i0, i1, i2 := Item([], fn, nl), Item([], fx, nl), Item([], fy, nl);
    var t0 := ItemText(i0);
    assert t0 == fn + nl;
    TextSingle(i0);
    TextAdd([i0], i1);
    assert [i0] + [i1] == [i0, i1];
    TextAdd([i0, i1], i2);
    assert [i0, i1] + [i2] == [i0, i1, i2];
    var t2 := Text([i0, i1, i2]);
    assert t2 == t0 + ItemText(i1) + ItemText(i2);
    Regroup3(fn + nl, fx, nl, fy);
    assert t2 == fn + nl + fx + nl + fy + nl;
    if !IsPbm(info.format) {
      var i3 := Item([], "255", nl);
      TextAdd([i0, i1, i2], i3);
      assert HeaderItems(info, nl) == [i0, i1, i2] + [i3];
      assert ItemText(i3) == "255" + nl;
    } else {
      assert HeaderItems(info, nl) == [i0, i1, i2];
    }
  }

  lemma TextAdd(items: seq<Item>, it: Item)
    ensures Text(items + [it]) == Text(items) + ItemText(it)
  {
    assert (items + [it])[..|items|] == items;
  }

  lemma Regroup3(t: seq<char>, x: seq<char>, nl: seq<char>, y: seq<char>)
    ensures t + ([] + x + nl) + ([] + y + nl) == t + x + nl + y + nl
  {
    assert [] + x == x;
    assert [] + y == y;
  }

  // ---------------------------------------------------------------------
  // Where each word of SavePlain's output sits

  /** The items of everything SavePlain writes: the header lines, then the
      words of every pixel. */
  function Layout(cells: seq<Color>, info: NetpbmInfo, nl: seq<char>): (items: seq<Item>)
    requires IsPlain(info.format)
  {
    HeaderItems(info, nl) + Body(cells, info.format, nl, |cells|)
  }

  lemma LayoutLength(cells: seq<Color>, info: NetpbmInfo, nl: seq<char>)
    requires IsPlain(info.format)
    ensures |Layout(cells, info, nl)| == Slot(info.format, |cells|)
  {
    BodyLength(cells, info.format, nl, |cells|);
  }

  /** Item Slot(n) + j of the output is word j of pixel n. */
  lemma LayoutAt(cells: seq<Color>, info: NetpbmInfo, nl: seq<char>, n: nat, j: nat)
    requires IsPlain(info.format) && n < |cells| && j < Arity(info.format)
    ensures Slot(info.format, n) + j < |Layout(cells, info, nl)|
    ensures Layout(cells, info, nl)[Slot(info.format, n) + j]
      == Item(if j == 0 then Lead(n, nl) else [], PixelWords(info.format, cells[n])[j], " ")
  {
    var f := info.format;
    var m := |cells|;
    BodyAt(cells, f, nl, m, n, j);
    PickSecond(Layout(cells, info, nl), HeaderItems(info, nl), Body(cells, f, nl, m), Span(f, n) + j, Slot(f, n) + j);
  }

  /** Element k of the first part of a concatenation. */
  lemma PickFirst<T>(s: seq<T>, first: seq<T>, second: seq<T>, k: nat)
    requires s == first + second && k < |first|
    ensures k < |s| && s[k] == first[k]
  {
  }

  /** Element k of the second part of a concatenation. */
  lemma PickSecond<T>(s: seq<T>, first: seq<T>, second: seq<T>, k: nat, x: nat)
    requires s == first + second && k < |second| && x == |first| + k
    ensures x < |s| && s[x] == second[k]
  {
  }

  // ---------------------------------------------------------------------
  // Every item is one Pop can read

  /** " " is a blank separator. */
  lemma SpaceBlank()
    ensures Blank(" ")
  {
    assert " "[1..] == [];
  }

  /** The header items are words between newlines. */
  lemma {:induction false} HeaderGood(info: NetpbmInfo, nl: seq<char>, k: nat)
    requires Blank(nl) && |nl| > 0 && k < HeaderWidth(info.format)
    ensures GoodItem(HeaderItems(info, nl)[k])
  {
    var it := HeaderItems(info, nl)[k];
    if k == 0 {
      var fn := FormatName(info.format);
      assert fn[1..][1..] == [];
      assert it.word == fn;
    } else if k == 1 {
      DigitsUnbroken(FormatNat(info.sizeX));
    } else if k == 2 {
      DigitsUnbroken(FormatNat(info.sizeY));
    } else {
      DigitsUnbroken("255");
    }
  }

  /** The body items are pixel words after a newline or nothing, each
      followed by a space. */
  lemma {:induction false} BodyGood(cells: seq<Color>, f: Format, nl: seq<char>, m: nat, k: nat)
    requires IsPlain(f) && m <= |cells| && Blank(nl) && k < |Body(cells, f, nl, m)|
    ensures GoodItem(Body(cells, f, nl, m)[k])
    decreases m
  {
    var before := Body(cells, f, nl, m - 1);
    if k < |before| {
      BodyGood(cells, f, nl, m - 1, k);
      BodyKeeps(cells, f, nl, m, k);
    } else {
      var ws := PixelWords(f, cells[m - 1]);
      var j := k - |before|;
      PickSecond(Body(cells, f, nl, m), before, WordItems(Lead(m - 1, nl), ws), j, k);
      WordItemAt(Lead(m - 1, nl), ws, j);
      DigitsUnbroken(ws[j]);
      SpaceBlank();
    }
  }

  lemma LayoutGood(cells: seq<Color>, info: NetpbmInfo, nl: seq<char>, k: nat)
    requires IsPlain(info.format) && Blank(nl) && |nl| > 0 && k < |Layout(cells, info, nl)|
    ensures GoodItem(Layout(cells, info, nl)[k])
  {
    var head := HeaderItems(info, nl);
    var body := Body(cells, info.format, nl, |cells|);
    if k < |head| {
      PickFirst(Layout(cells, info, nl), head, body, k);
      HeaderGood(info, nl, k);
    } else {
      PickSecond(Layout(cells, info, nl), head, body, k - |head|, k);
      BodyGood(cells, info.format, nl, |cells|, k - |head|);
    }
  }

  /** Pop on SavePlain's output at word k returns word k. */
  lemma PopLayout(cells: seq<Color>, info: NetpbmInfo, nl: seq<char>, k: nat)
    requires IsPlain(info.format) && Blank(nl) && |nl| > 0 && k < |Layout(cells, info, nl)|
    ensures PopSpec(Text(Layout(cells, info, nl)), Cur(Layout(cells, info, nl), k))
      == (Layout(cells, info, nl)[k].word, Cur(Layout(cells, info, nl), k + 1))
  {
    LayoutGood(cells, info, nl, k);
    if k > 0 {
      LayoutGood(cells, info, nl, k - 1);
    }
    PopItem(Layout(cells, info, nl), k);
  }

  // ---------------------------------------------------------------------
  // Reading the output back

  /** The max colour LoadPlain reads back: 0 when no max-colour line is
      written, the literal 255 otherwise. */
  function MaxOf(f: Format): nat { if IsPbm(f) then 0 else 255 }

  /** The header item at k of the output. */
  lemma LayoutHead(cells: seq<Color>, info: NetpbmInfo, nl: seq<char>, k: nat)
    requires IsPlain(info.format) && k < HeaderWidth(info.format)
    ensures k < |Layout(cells, info, nl)| && Layout(cells, info, nl)[k] == HeaderItems(info, nl)[k]
  {
    PickFirst(Layout(cells, info, nl), HeaderItems(info, nl), Body(cells, info.format, nl, |cells|), k);
  }

  /** Header word k as SavePlain writes it. */
  function HeaderWord(info: NetpbmInfo, k: nat): seq<char>
  {
    if k == 0 then FormatName(info.format)
    else if k == 1 then FormatNat(info.sizeX)
    else if k == 2 then FormatNat(info.sizeY)
    else "255"
  }

  lemma HeaderItemWord(info: NetpbmInfo, nl: seq<char>, k: nat)
    requires k < HeaderWidth(info.format)
    ensures HeaderItems(info, nl)[k].word == HeaderWord(info, k)
  {
  }

  // ---------------------------------------------------------------------
  // A text read as a list of words, on its own

  /** The words of `items`, in order. */
  function WordsOf(items: seq<Item>): (ws: seq<seq<char>>)
    ensures |ws| == |items|
    ensures forall k {:trigger ws[k]} :: 0 <= k < |items| ==> ws[k] == items[k].word
  {
    seq(|items|, k requires 0 <= k < |items| => items[k].word)
  }

  /** The cursor before each word of `items`, and the one after the last. */
  function CursorsOf(items: seq<Item>): (cs: seq<nat>)
    ensures |cs| == |items| + 1
    ensures forall k {:trigger cs[k]} :: 0 <= k <= |items| ==> cs[k] == Cur(items, k)
  {
    seq(|items| + 1, k requires 0 <= k <= |items| => Cur(items, k))
  }

  /** Reading `s` starts at cursor cs[0] = 0. A reader at cursor cs[k] is not IsEmpty, and Pop returns word
      ws[k] and moves the cursor to cs[k + 1]; at the cursor after the last
      word the reader is IsEmpty. Stated for an arbitrary `s`, `ws` and
      `cs` so that proofs about reading never see how the text was built. */
  predicate Reads(s: seq<char>, ws: seq<seq<char>>, cs: seq<nat>)
  {
    && |cs| == |ws| + 1 && cs[0] == 0
    && (forall k {:trigger ws[k]} :: 0 <= k < |ws| ==>
          cs[k] + 1 < |s| && PopSpec(s, cs[k]) == (ws[k], cs[k + 1]))
    && cs[|ws|] <= |s| && cs[|ws|] + 1 >= |s|
  }

  lemma ReadAt(s: seq<char>, ws: seq<seq<char>>, cs: seq<nat>, k: nat)
    requires Reads(s, ws, cs) && k < |ws|
    ensures cs[k] + 1 < |s| && PopSpec(s, cs[k]) == (ws[k], cs[k + 1])
  {
    var w := ws[k];  // the term that instantiates Reads at k
  }

  /** SavePlain's output reads as the words of its items. The last word is
      followed by one character, a space after a pixel or a one-character
      newline after a header with no pixels, so the reader is IsEmpty after
      it. */
  lemma LayoutReads(cells: seq<Color>, info: NetpbmInfo, nl: seq<char>)
    requires IsPlain(info.format) && Blank(nl) && |nl| > 0
    requires |cells| > 0 || |nl| == 1
    ensures Reads(Text(Layout(cells, info, nl)), WordsOf(Layout(cells, info, nl)), CursorsOf(Layout(cells, info, nl)))
  {
    var its := Layout(cells, info, nl);
    var s, ws, cs := Text(its), WordsOf(its), CursorsOf(its);
    forall k | 0 <= k < |ws|
      ensures cs[k] + 1 < |s| && PopSpec(s, cs[k]) == (ws[k], cs[k + 1])
    {
      PopLayout(cells, info, nl, k);
      LayoutGood(cells, info, nl, k);
      CurInside(its, k);
    }
    LastSep(cells, info, nl);
    CurAtEnd(its);
  }

  /** The output ends in one character after its last word. */
  lemma LastSep(cells: seq<Color>, info: NetpbmInfo, nl: seq<char>)
    requires IsPlain(info.format) && (|cells| > 0 || |nl| == 1)
    ensures |Layout(cells, info, nl)| > 0
    ensures |Layout(cells, info, nl)[|Layout(cells, info, nl)| - 1].sep| == 1
  {
    var f := info.format;
    LayoutLength(cells, info, nl);
    var last := Slot(f, |cells|) - 1;
    if |cells| > 0 {
      var n := |cells| - 1;
      LayoutAt(cells, info, nl, n, Arity(f) - 1);
      assert Slot(f, n) + Arity(f) - 1 == last;
    } else {
      LayoutHead(cells, info, nl, last);
    }
  }

  /** The first words are the header SavePlain writes for `info`. */
  predicate Headed(ws: seq<seq<char>>, info: NetpbmInfo)
  {
    && HeaderWidth(info.format) <= |ws|
    && ws[0] == FormatName(info.format)
    && ws[1] == FormatNat(info.sizeX)
    && ws[2] == FormatNat(info.sizeY)
    && (!IsPbm(info.format) ==> ws[3] == "255")
  }

  /** Word j of pixel n among `ws`, or nothing past the end. */
  function PixelWord(ws: seq<seq<char>>, f: Format, n: nat, j: nat): seq<char>
  {
    if Slot(f, n) + j < |ws| then ws[Slot(f, n) + j] else []
  }

  /** After the header, the words are those of the cells, pixel after pixel. */
  predicate Pictured(ws: seq<seq<char>>, f: Format, cells: seq<Color>)
    requires IsPlain(f)
  {
    && |ws| == Slot(f, |cells|)
    && forall n: nat, j: nat {:trigger PixelWord(ws, f, n, j)} :: n < |cells| && j < Arity(f) ==>
         PixelWord(ws, f, n, j) == PixelWords(f, cells[n])[j]
  }

  /** The words of SavePlain's output: its header, then its pixels. */
  lemma LayoutWords(cells: seq<Color>, info: NetpbmInfo, nl: seq<char>)
    requires IsPlain(info.format)
    ensures Headed(WordsOf(Layout(cells, info, nl)), info)
    ensures Pictured(WordsOf(Layout(cells, info, nl)), info.format, cells)
  {
    LayoutHeaded(cells, info, nl);
    LayoutPictured(cells, info, nl);
  }

  lemma LayoutHeaded(cells: seq<Color>, info: NetpbmInfo, nl: seq<char>)
    requires IsPlain(info.format)
    ensures Headed(WordsOf(Layout(cells, info, nl)), info)
  {
    var ws := WordsOf(Layout(cells, info, nl));
    LayoutLength(cells, info, nl);
    forall k | 0 <= k < HeaderWidth(info.format)
      ensures ws[k] == HeaderWord(info, k)
    {
      LayoutHead(cells, info, nl, k);
      HeaderItemWord(info, nl, k);
    }
  }

  lemma LayoutPictured(cells: seq<Color>, info: NetpbmInfo, nl: seq<char>)
    requires IsPlain(info.format)
    ensures Pictured(WordsOf(Layout(cells, info, nl)), info.format, cells)
  {
    var f := info.format;
    var ws := WordsOf(Layout(cells, info, nl));
    LayoutLength(cells, info, nl);
    forall n: nat, j: nat | n < |cells| && j < Arity(f)
      ensures PixelWord(ws, f, n, j) == PixelWords(f, cells[n])[j]
    {
      LayoutAt(cells, info, nl, n, j);
    }
  }

  // ---------------------------------------------------------------------
  // Reading the header and the pixels back

  /** LoadPlain's header statements read back the header SavePlain writes. */
  lemma HeaderRead(s: seq<char>, ws: seq<seq<char>>, cs: seq<nat>, info: NetpbmInfo)
    requires IsPlain(info.format) && info.sizeX <= Int32Max && info.sizeY <= Int32Max
    requires Reads(s, ws, cs) && Headed(ws, info)
    ensures PlainHeader(s) == Ok((ReadInfo(info), cs[HeaderWidth(info.format)]))
  {
    var w := HeaderWidth(info.format);
    ReadAt(s, ws, cs, 0);
    ReadAt(s, ws, cs, 1);
    ReadAt(s, ws, cs, 2);
    if w == 4 {
      ReadAt(s, ws, cs, 3);
    }
    HeaderWords(s, info.format, info.sizeX, info.sizeY, cs[1], cs[2], cs[3], cs[w]);
  }

  /** The words of a header, with the cursor after each of them. */
  predicate HeaderAt(s: seq<char>, f: Format, x: nat, y: nat, c1: nat, c2: nat, c3: nat, c4: nat)
  {
    && PopSpec(s, 0) == (FormatName(f), c1)
    && c1 <= |s| && PopSpec(s, c1) == (FormatNat(x), c2)
    && c2 <= |s| && PopSpec(s, c2) == (FormatNat(y), c3)
    && (IsPbm(f) ==> c4 == c3)
    && (!IsPbm(f) ==> c3 <= |s| && PopSpec(s, c3) == ("255", c4))
  }

  /** PlainHeader on any text whose first words are a header. */
  lemma HeaderWords(s: seq<char>, f: Format, x: nat, y: nat, c1: nat, c2: nat, c3: nat, c4: nat)
    requires x <= Int32Max && y <= Int32Max
    requires HeaderAt(s, f, x, y, c1, c2, c3, c4)
    ensures PlainHeader(s) == Ok((NetpbmInfo(f, MaxOf(f), x, y), c4))
  {
    ParseFormatName(f);
    ParseIntFormatNat(x);
    ParseIntFormatNat(y);
    Parse255();
  }

  /** The header LoadPlain reads back: the max colour is 0 without a
      max-colour line and 255 with one. */
  function ReadInfo(info: NetpbmInfo): NetpbmInfo
  {
    NetpbmInfo(info.format, MaxOf(info.format), info.sizeX, info.sizeY)
  }

  /** What LoadPlain makes of a colour SavePlain wrote: a P1 pixel is Black
      or White by its red channel, a P3 pixel keeps its channels and
      becomes opaque. */
  function Reading(f: Format, c: Color): Color
    requires f == P1 || f == P3
  {
    if f == P1 then (if c.r > 127 then White else Black) else Opaque(c)
  }

  /** The word of a P1 pixel reads back as its reading. */
  lemma PixelRead1(s: seq<char>, ws: seq<seq<char>>, cs: seq<nat>, info: NetpbmInfo, k: nat, c: Color)
    requires info.format == P1 && Reads(s, ws, cs) && k < |ws|
    requires ws[k] == PixelWords(P1, c)[0]
    ensures cs[k] + 1 < |s| && PixelAt(s, cs[k], info) == Ok((Reading(P1, c), cs[k + 1]))
  {
    ReadAt(s, ws, cs, k);
    assert P1Color(ws[k]) == Reading(P1, c);
  }

  /** The three words of a P3 pixel read back as its reading. */
  lemma PixelRead3(s: seq<char>, ws: seq<seq<char>>, cs: seq<nat>, info: NetpbmInfo, k: nat, c: Color)
    requires info.format == P3 && info.colorMaxValue == 255 && Reads(s, ws, cs) && k + 2 < |ws|
    requires ws[k] == FormatNat(c.r) && ws[k + 1] == FormatNat(c.g) && ws[k + 2] == FormatNat(c.b)
    ensures cs[k] + 1 < |s| && PixelAt(s, cs[k], info) == Ok((Reading(P3, c), cs[k + 3]))
  {
    ReadAt(s, ws, cs, k);
    ReadAt(s, ws, cs, k + 1);
    ReadAt(s, ws, cs, k + 2);
    Pixel3(s, cs[k], cs[k + 1], cs[k + 2], cs[k + 3], c, info);
  }

  /** The three channel words of a P3 pixel read back as its colour. */
  lemma Pixel3(s: seq<char>, c0: nat, c1: nat, c2: nat, c3: nat, col: Color, info: NetpbmInfo)
    requires info.format == P3 && info.colorMaxValue == 255
    requires c0 <= |s| && PopSpec(s, c0) == (FormatNat(col.r), c1)
    requires c1 <= |s| && PopSpec(s, c1) == (FormatNat(col.g), c2)
    requires c2 <= |s| && PopSpec(s, c2) == (FormatNat(col.b), c3)
    ensures PixelAt(s, c0, info) == Ok((Opaque(col), c3))
  {
    ParseIntFormatNat(col.r);
    ParseIntFormatNat(col.g);
    ParseIntFormatNat(col.b);
    NormalizeIdentity(col.r);
    NormalizeIdentity(col.g);
    NormalizeIdentity(col.b);
  }

  /** What LoadPlain reads for pixels n .. Area - 1 of a cells SavePlain wrote. */
  function ReadingsFrom(cells: seq<Color>, f: Format, n: nat): (rs: seq<Color>)
    requires f == P1 || f == P3
    ensures n <= |cells| ==> |rs| == |cells| - n
    decreases |cells| - n
  {
    if n >= |cells| then [] else [Reading(f, cells[n])] + ReadingsFrom(cells, f, n + 1)
  }

  lemma {:induction false} ReadingsAt(cells: seq<Color>, f: Format, n: nat, k: nat)
    requires (f == P1 || f == P3) && n + k < |cells|
    ensures k < |ReadingsFrom(cells, f, n)|
    ensures ReadingsFrom(cells, f, n)[k] == Reading(f, cells[n + k])
    decreases k
  {
    if k > 0 {
      ReadingsAt(cells, f, n + 1, k - 1);
    }
  }

  /** Pixel words come in blocks of Arity, ever further on. */
  lemma {:induction false} SlotMonotone(f: Format, n: nat, m: nat)
    requires n <= m
    ensures Slot(f, n) <= Slot(f, m)
    decreases m - n
  {
    if n < m {
      SlotMonotone(f, n, m - 1);
    }
  }

  /** The cursor before the words of pixel n, or 0 for no such pixel. */
  function PixelCursor(cs: seq<nat>, f: Format, n: int): nat
  {
    if 0 <= n && Slot(f, n) < |cs| then cs[Slot(f, n)] else 0
  }

  /** The cursors before pixels 0 .. n - 1. */
  function PixelCursors(cs: seq<nat>, f: Format, n: nat): (pcs: seq<nat>)
    ensures |pcs| == n
    ensures forall k :: 0 <= k < n ==> pcs[k] == PixelCursor(cs, f, k)
  {
    seq(n, k => PixelCursor(cs, f, k))
  }

  /** Pixel k of `rs` is read from cursor cs[k], leaving the cursor at
      cs[k + 1], and the reader is not IsEmpty before it. */
  predicate PixelStep(s: seq<char>, cs: seq<nat>, info: NetpbmInfo, rs: seq<Color>, k: nat)
    requires k < |rs| && |cs| == |rs| + 1
  {
    cs[k] + 1 < |s| && PixelAt(s, cs[k], info) == Ok((rs[k], cs[k + 1]))
  }

  /** LoadPlain's pixel loop on any text where every pixel k of `rs` is a
      PixelStep and the reader is IsEmpty after the last: started at pixel
      j, it reads the pixels from j on. */
  lemma {:induction false} LoopReads(s: seq<char>, cs: seq<nat>, info: NetpbmInfo, rs: seq<Color>, j: nat)
    requires |cs| == |rs| + 1 && j <= |rs| && |rs| <= info.sizeX * info.sizeY
    requires forall k :: 0 <= k < |rs| ==> PixelStep(s, cs, info, rs, k)
    requires cs[|rs|] <= |s| && cs[|rs|] + 1 >= |s|
    ensures cs[j] <= |s|
    ensures PixelsFrom(s, cs[j], info, j) == Ok(rs[j..])
    decreases |rs| - j
  {
    if j < |rs| {
      LoopReads(s, cs, info, rs, j + 1);
      LoopAt(s, cs, info, rs, j);
    } else {
      assert rs[j..] == [];
    }
  }

  lemma LoopAt(s: seq<char>, cs: seq<nat>, info: NetpbmInfo, rs: seq<Color>, j: nat)
    requires |cs| == |rs| + 1 && j < |rs| && |rs| <= info.sizeX * info.sizeY
    requires PixelStep(s, cs, info, rs, j)
    requires cs[j + 1] <= |s| && PixelsFrom(s, cs[j + 1], info, j + 1) == Ok(rs[j + 1..])
    ensures cs[j] <= |s| && PixelsFrom(s, cs[j], info, j) == Ok(rs[j..])
  {
    LoopStep(s, info, j, cs[j], cs[j + 1], rs[j], rs[j + 1..]);
    assert rs[j..] == [rs[j]] + rs[j + 1..];
  }

  /** One turn of the pixel loop: pixel j is read, then the rest. */
  lemma LoopStep(s: seq<char>, info: NetpbmInfo, j: nat, c: nat, c1: nat, r: Color, rest: seq<Color>)
    requires j < info.sizeX * info.sizeY && c + 1 < |s|
    requires PixelAt(s, c, info) == Ok((r, c1)) && c1 <= |s|
    requires PixelsFrom(s, c1, info, j + 1) == Ok(rest)
    ensures PixelsFrom(s, c, info, j) == Ok([r] + rest)
  {
    NotPastLastRow(j, info.sizeX, info.sizeY);
  }

  /** Every pixel SavePlain wrote is a PixelStep of the readings. */
  lemma PixelsAt(s: seq<char>, ws: seq<seq<char>>, cs: seq<nat>, cells: seq<Color>, info: NetpbmInfo, pcs: seq<nat>, rs: seq<Color>)
    requires info.format == P1 || info.format == P3
    requires Reads(s, ws, cs) && Pictured(ws, info.format, cells)
    requires rs == ReadingsFrom(cells, info.format, 0)
    requires pcs == PixelCursors(cs, info.format, |cells| + 1)
    ensures |pcs| == |rs| + 1
    ensures forall k :: 0 <= k < |rs| ==> PixelStep(s, pcs, ReadInfo(info), rs, k)
  {
    forall k | 0 <= k < |rs|
      ensures PixelStep(s, pcs, ReadInfo(info), rs, k)
    {
      PixelReadAt(s, ws, cs, cells, info, k);
      PixelAtCursor(cs, cells, info.format, pcs, rs, k);
      StepOf(s, pcs, ReadInfo(info), rs, k, cs[Slot(info.format, k)], cs[Slot(info.format, k + 1)], Reading(info.format, cells[k]));
    }
  }

  /** Pixel n of the cells reads back as its reading, from the cursor
      before its words to the cursor before the next pixel's. */
  lemma PixelReadAt(s: seq<char>, ws: seq<seq<char>>, cs: seq<nat>, cells: seq<Color>, info: NetpbmInfo, n: nat)
    requires info.format == P1 || info.format == P3
    requires Reads(s, ws, cs) && Pictured(ws, info.format, cells) && n < |cells|
    ensures Slot(info.format, n + 1) < |cs|
    ensures cs[Slot(info.format, n)] + 1 < |s|
    ensures PixelAt(s, cs[Slot(info.format, n)], ReadInfo(info)) == Ok((Reading(info.format, cells[n]), cs[Slot(info.format, n + 1)]))
  {
    var f := info.format;
    var k := Slot(f, n);
    var c := cells[n];
    SlotMonotone(f, n + 1, |cells|);
    assert Slot(f, n + 1) == k + Arity(f);
    if f == P1 {
      assert PixelWord(ws, f, n, 0) == PixelWords(f, c)[0];
      PixelRead1(s, ws, cs, ReadInfo(info), k, c);
    } else {
      assert PixelWord(ws, f, n, 0) == PixelWords(f, c)[0];
      assert PixelWord(ws, f, n, 1) == PixelWords(f, c)[1];
      assert PixelWord(ws, f, n, 2) == PixelWords(f, c)[2];
      PixelRead3(s, ws, cs, ReadInfo(info), k, c);
    }
  }

  /** The pixel cursors and the readings at pixel n. */
  lemma PixelAtCursor(cs: seq<nat>, cells: seq<Color>, f: Format, pcs: seq<nat>, rs: seq<Color>, n: nat)
    requires f == P1 || f == P3
    requires rs == ReadingsFrom(cells, f, 0)
    requires pcs == PixelCursors(cs, f, |cells| + 1)
    requires n < |rs| && Slot(f, n + 1) < |cs|
    ensures |pcs| == |rs| + 1
    ensures pcs[n] == cs[Slot(f, n)] && pcs[n + 1] == cs[Slot(f, n + 1)] && rs[n] == Reading(f, cells[n])
  {
    SlotMonotone(f, n, n + 1);
    ReadingsAt(cells, f, 0, n);
  }

  lemma StepOf(s: seq<char>, pcs: seq<nat>, info: NetpbmInfo, rs: seq<Color>, n: nat, c0: nat, c1: nat, r: Color)
    requires n < |rs| && |pcs| == |rs| + 1
    requires pcs[n] == c0 && pcs[n + 1] == c1 && rs[n] == r
    requires c0 + 1 < |s| && PixelAt(s, c0, info) == Ok((r, c1))
    ensures PixelStep(s, pcs, info, rs, n)
  {
  }

  /** LoadPlain on any text that reads as the words of a header and then
      of the cells reads back the header and the reading of every cell. */
  lemma DecodeRead(s: seq<char>, ws: seq<seq<char>>, cs: seq<nat>, cells: seq<Color>, info: NetpbmInfo)
    requires info.format == P1 || info.format == P3
    requires info.sizeX * info.sizeY == |cells|
    requires info.sizeX <= Int32Max && info.sizeY <= Int32Max
    requires Reads(s, ws, cs) && Headed(ws, info) && Pictured(ws, info.format, cells)
    ensures DecodePlain(s) == Ok((ReadInfo(info), ReadingsFrom(cells, info.format, 0)))
  {
    var f := info.format;
    var rs := ReadingsFrom(cells, f, 0);
    var pcs := PixelCursors(cs, f, |cells| + 1);
    HeaderRead(s, ws, cs, info);
    assert pcs[0] == cs[HeaderWidth(f)];
    assert pcs[|cells|] == cs[|ws|];
    PixelsAt(s, ws, cs, cells, info, pcs, rs);
    LoopReads(s, pcs, ReadInfo(info), rs, 0);
    assert rs[0..] == rs;
    DecodeOf(s, ReadInfo(info), pcs[0], rs);
  }

  /** A P2 file SavePlain wrote does not load: LoadPlain reads no max-colour
      line for P2, so ColorMaxValue stays 0 and normalize divides by zero
      on the first pixel. */
  lemma PlainP2Fails(cells: seq<Color>, info: NetpbmInfo, nl: seq<char>)
    requires info.format == P2 && info.sizeX * info.sizeY == |cells| && |cells| > 0
    requires info.sizeX <= Int32Max && info.sizeY <= Int32Max
    requires Blank(nl) && |nl| > 0
    ensures DecodePlain(Text(Layout(cells, info, nl))) == Err(DivideByZero)
  {
    var its := Layout(cells, info, nl);
    LayoutReads(cells, info, nl);
    LayoutWords(cells, info, nl);
    var c := P2FirstPixel(Text(its), WordsOf(its), CursorsOf(its), cells, info);
    P2Reads(Text(its), c, info);
  }

  /** LoadPlain on any text whose P2 header reads and whose first pixel
      word after it parses: the max colour a P2 header leaves at 0 makes
      normalize divide by zero. */
  lemma P2Reads(s: seq<char>, c: nat, info: NetpbmInfo)
    requires info.format == P2 && info.sizeX * info.sizeY > 0
    requires c + 1 < |s| && PlainHeader(s) == Ok((ReadInfo(info), c)) && ParseInt(PopSpec(s, c).0).Ok?
    ensures DecodePlain(s) == Err(DivideByZero)
  {
    PositiveFactors(info.sizeX, info.sizeY);
    ZeroMaxPixels(s, c, ReadInfo(info));
    HeaderThenFails(s, ReadInfo(info), c);
  }

  /** The P2 header reads, and the first pixel word after it parses. */
  lemma P2FirstPixel(s: seq<char>, ws: seq<seq<char>>, cs: seq<nat>, cells: seq<Color>, info: NetpbmInfo) returns (c: nat)
    requires info.format == P2 && |cells| > 0
    requires info.sizeX <= Int32Max && info.sizeY <= Int32Max
    requires Reads(s, ws, cs) && Headed(ws, info) && Pictured(ws, P2, cells)
    ensures c + 1 < |s| && PlainHeader(s) == Ok((ReadInfo(info), c)) && ParseInt(PopSpec(s, c).0).Ok?
  {
    HeaderRead(s, ws, cs, info);
    assert PixelWord(ws, P2, 0, 0) == PixelWords(P2, cells[0])[0];
    ReadAt(s, ws, cs, 3);
    ParseIntFormatNat(Avg(cells[0]));
    c := cs[3];
  }

  /** A header that reads followed by a pixel loop that fails. */
  lemma HeaderThenFails(s: seq<char>, info: NetpbmInfo, c: nat)
    requires c <= |s| && PlainHeader(s) == Ok((info, c)) && PixelsFrom(s, c, info, 0).Err?
    ensures DecodePlain(s) == Err(PixelsFrom(s, c, info, 0).error)
  {
  }

  lemma PositiveFactors(a: nat, b: nat)
    requires a * b > 0
    ensures a > 0 && b > 0
  {
  }

  /** With max colour 0, the first grey pixel that parses divides by zero. */
  lemma ZeroMaxPixels(s: seq<char>, idx: nat, info: NetpbmInfo)
    requires idx + 1 < |s| && info.format == P2 && info.colorMaxValue == 0
    requires info.sizeX > 0 && info.sizeY > 0 && ParseInt(PopSpec(s, idx).0).Ok?
    ensures PixelsFrom(s, idx, info, 0) == Err(DivideByZero)
  {
    assert Channel(s, idx, 0) == Err(DivideByZero);
    assert PixelAt(s, idx, info) == Err(DivideByZero);
  }

  /** LoadPlain reads a header, and then as many pixels as it announces. */
  lemma DecodeOf(s: seq<char>, info: NetpbmInfo, c: nat, rs: seq<Color>)
    requires c <= |s| && PlainHeader(s) == Ok((info, c))
    requires PixelsFrom(s, c, info, 0) == Ok(rs) && |rs| == info.sizeX * info.sizeY
    ensures DecodePlain(s) == Ok((info, rs))
  {
  }

  /** SavePlain writes pixel i as its words, each followed by a space. */
  lemma PixelTextCell(bitmap: array2<Color>, info: NetpbmInfo, i: nat)
    requires IsPlain(info.format) && info.sizeX == bitmap.Length0 && i < Area(bitmap)
    ensures PixelText(bitmap, info, i) == Ok(Spaced(PixelWords(info.format, Cells(bitmap)[i])))
  {
    NotPastLastRow(i, bitmap.Length0, bitmap.Length1);
  }

  /** What SavePlain has written after n pixels is the text of the header
      items and the items of those pixels. */
  lemma {:induction false} WrittenBody(bitmap: array2<Color>, info: NetpbmInfo, nl: seq<char>, n: nat)
    requires IsPlain(info.format) && info.sizeX == bitmap.Length0 && n <= Area(bitmap)
    ensures Written(bitmap, info, nl, n) == (Text(HeaderItems(info, nl) + Body(Cells(bitmap), info.format, nl, n)), Done)
    decreases n
  {
    var head := HeaderItems(info, nl);
    if n == 0 {
      HeaderTextItems(info, nl);
      assert head + [] == head;
    } else {
      WrittenBody(bitmap, info, nl, n - 1);
      WrittenNext(bitmap, info, nl, n, Text(head + Body(Cells(bitmap), info.format, nl, n - 1)));
      ItemsNext(head, Cells(bitmap), info.format, nl, n);
    }
  }

  /** SavePlain's loop turn for pixel n - 1 writes its lead and its words. */
  lemma WrittenNext(bitmap: array2<Color>, info: NetpbmInfo, nl: seq<char>, n: nat, t: seq<char>)
    requires IsPlain(info.format) && info.sizeX == bitmap.Length0 && 0 < n <= Area(bitmap)
    requires Written(bitmap, info, nl, n - 1) == (t, Done)
    ensures Written(bitmap, info, nl, n) == (t + (Lead(n - 1, nl) + Spaced(PixelWords(info.format, Cells(bitmap)[n - 1]))), Done)
  {
    PixelTextCell(bitmap, info, n - 1);
    BodyStep(bitmap, info, nl, n - 1);
    Associate(t, Lead(n - 1, nl), Spaced(PixelWords(info.format, Cells(bitmap)[n - 1])));
  }

  /** The items of one more pixel add its lead and its words to the text. */
  lemma ItemsNext(head: seq<Item>, cells: seq<Color>, f: Format, nl: seq<char>, n: nat)
    requires IsPlain(f) && 0 < n <= |cells|
    ensures Text(head + Body(cells, f, nl, n))
      == Text(head + Body(cells, f, nl, n - 1)) + (Lead(n - 1, nl) + Spaced(PixelWords(f, cells[n - 1])))
  {
    var before := Body(cells, f, nl, n - 1);
    var ws := PixelWords(f, cells[n - 1]);
    var more := WordItems(Lead(n - 1, nl), ws);
    SpacedText(Lead(n - 1, nl), ws);
    Associate(head, before, more);
    TextAppend(head + before, more);
  }

  lemma Associate<T>(a: seq<T>, b: seq<T>, c: seq<T>)
    ensures a + (b + c) == (a + b) + c
  {
  }

  /** SavePlain's whole output is the text of its items. */
  lemma EncodeLayout(bitmap: array2<Color>, info: NetpbmInfo, nl: seq<char>)
    requires IsPlain(info.format) && info.sizeX == bitmap.Length0
    ensures EncodePlain(bitmap, info, nl) == (Text(Layout(Cells(bitmap), info, nl)), Done)
  {
    WrittenBody(bitmap, info, nl, Area(bitmap));
  }

  /** The plain round trip: for P1 and P3, with SizeX and SizeY the bitmap's
      dimensions, LoadPlain reads back the header SavePlain wrote (max colour
      0 for P1, 255 for P3) and, for every cell, the reading of its colour. */
  lemma PlainRoundTrip(bitmap: array2<Color>, info: NetpbmInfo, nl: seq<char>)
    requires info.format == P1 || info.format == P3
    requires info.sizeX == bitmap.Length0 && info.sizeY == bitmap.Length1
    requires info.sizeX <= Int32Max && info.sizeY <= Int32Max
    requires Blank(nl) && |nl| > 0 && (Area(bitmap) > 0 || |nl| == 1)
    ensures EncodePlain(bitmap, info, nl).1 == Done
    ensures DecodePlain(EncodePlain(bitmap, info, nl).0).Ok?
    ensures DecodePlain(EncodePlain(bitmap, info, nl).0).value.0 == ReadInfo(info)
    ensures forall x, y :: 0 <= x < bitmap.Length0 && 0 <= y < bitmap.Length1 ==>
      RowMajor(x, y, bitmap.Length0) < |DecodePlain(EncodePlain(bitmap, info, nl).0).value.1| &&
      DecodePlain(EncodePlain(bitmap, info, nl).0).value.1[RowMajor(x, y, bitmap.Length0)] == Reading(info.format, bitmap[x, y])
  {
    var cells := Cells(bitmap);
    EncodeLayout(bitmap, info, nl);
    TextRead(cells, info, nl);
    var pixels := ReadingsFrom(cells, info.format, 0);
    forall x, y | 0 <= x < bitmap.Length0 && 0 <= y < bitmap.Length1
      ensures RowMajor(x, y, bitmap.Length0) < |pixels| && pixels[RowMajor(x, y, bitmap.Length0)] == Reading(info.format, bitmap[x, y])
    {
      CellsRowMajor(bitmap, x, y);
      ReadingsAt(cells, info.format, 0, RowMajor(x, y, bitmap.Length0));
    }
  }

  /** An image with no cells saved with a newline of two or more characters,
      such as "\r\n", does not load back. After the last header word the
      reader stops on the newline's first character, one before the last,
      so it is not IsEmpty and the pixel loop runs: y(0) divides by a zero
      SizeX, and with SizeX > 0 the row 0 is already past SizeY = 0. */
  lemma EmptyImageLongNewline(bitmap: array2<Color>, info: NetpbmInfo, nl: seq<char>)
    requires IsPlain(info.format) && Area(bitmap) == 0
    requires info.sizeX == bitmap.Length0 && info.sizeY == bitmap.Length1
    requires info.sizeX <= Int32Max && info.sizeY <= Int32Max
    requires Blank(nl) && |nl| >= 2
    ensures EncodePlain(bitmap, info, nl).1 == Done
    ensures DecodePlain(EncodePlain(bitmap, info, nl).0) == Err(if info.sizeX == 0 then DivideByZero else TooManyPixels)
  {
    EncodeLayout(bitmap, info, nl);
    assert Cells(bitmap) == [];
    var s := Text(Layout([], info, nl));
    var c := HeaderOnlyRead(info, nl);
    EmptyLoopFails(s, c, ReadInfo(info));
    HeaderThenFails(s, ReadInfo(info), c);
  }

  /** SavePlain's output for no cells is its header, which reads back, and
      the reader stops |nl| characters before the end. */
  lemma HeaderOnlyRead(info: NetpbmInfo, nl: seq<char>) returns (c: nat)
    requires IsPlain(info.format) && info.sizeX <= Int32Max && info.sizeY <= Int32Max
    requires Blank(nl) && |nl| > 0
    ensures c + |nl| == |Text(Layout([], info, nl))|
    ensures PlainHeader(Text(Layout([], info, nl))) == Ok((ReadInfo(info), c))
  {
    c := Cur(Layout([], info, nl), HeaderWidth(info.format));
    HeaderOnlyWords(info, nl);
    HeaderOnlyEnd(info, nl);
  }

  /** The header words of SavePlain's output for no cells read back. */
  lemma HeaderOnlyWords(info: NetpbmInfo, nl: seq<char>)
    requires IsPlain(info.format) && info.sizeX <= Int32Max && info.sizeY <= Int32Max
    requires Blank(nl) && |nl| > 0
    ensures PlainHeader(Text(Layout([], info, nl))) == Ok((ReadInfo(info), Cur(Layout([], info, nl), HeaderWidth(info.format))))
  {
    LayoutLength([], info, nl);
    forall k | 0 <= k < HeaderWidth(info.format)
      ensures PopSpec(Text(Layout([], info, nl)), Cur(Layout([], info, nl), k))
        == (HeaderWord(info, k), Cur(Layout([], info, nl), k + 1))
    {
      HeaderOnlyPop(info, nl, k);
    }
    ItemsHeader(Layout([], info, nl), info);
  }

  /** PlainHeader on items whose first words are the header words. */
  lemma ItemsHeader(items: seq<Item>, info: NetpbmInfo)
    requires IsPlain(info.format) && info.sizeX <= Int32Max && info.sizeY <= Int32Max
    requires HeaderWidth(info.format) <= |items|
    requires forall k :: 0 <= k < HeaderWidth(info.format) ==>
      PopSpec(Text(items), Cur(items, k)) == (HeaderWord(info, k), Cur(items, k + 1))
    ensures PlainHeader(Text(items)) == Ok((ReadInfo(info), Cur(items, HeaderWidth(info.format))))
  {
    var w := HeaderWidth(info.format);
    var s, c1, c2, c3 := Text(items), Cur(items, 1), Cur(items, 2), Cur(items, 3);
    assert PopSpec(s, Cur(items, 0)) == (HeaderWord(info, 0), c1);
    assert PopSpec(s, c1) == (HeaderWord(info, 1), c2);
    assert PopSpec(s, c2) == (HeaderWord(info, 2), c3);
    if w == 4 {
      assert PopSpec(s, c3) == (HeaderWord(info, 3), Cur(items, 4));
    }
    HeaderWords(s, info.format, info.sizeX, info.sizeY, c1, c2, c3, Cur(items, w));
  }

  /** Pop on SavePlain's output for no cells at header word k returns it. */
  lemma HeaderOnlyPop(info: NetpbmInfo, nl: seq<char>, k: nat)
    requires IsPlain(info.format) && Blank(nl) && |nl| > 0 && k < HeaderWidth(info.format)
    ensures PopSpec(Text(Layout([], info, nl)), Cur(Layout([], info, nl), k))
      == (HeaderWord(info, k), Cur(Layout([], info, nl), k + 1))
  {
    LayoutHead([], info, nl, k);
    HeaderItemWord(info, nl, k);
    PopLayout([], info, nl, k);
  }

  /** After the header of SavePlain's output for no cells only the last
      newline is left. */
  lemma HeaderOnlyEnd(info: NetpbmInfo, nl: seq<char>)
    requires IsPlain(info.format)
    ensures Cur(Layout([], info, nl), HeaderWidth(info.format)) + |nl| == |Text(Layout([], info, nl))|
  {
    var its := Layout([], info, nl);
    var w := HeaderWidth(info.format);
    LayoutLength([], info, nl);
    CurAtEnd(its);
    LayoutHead([], info, nl, w - 1);
  }

  /** With no cells declared, a pixel loop that starts at all fails on its
      first pixel. */
  lemma EmptyLoopFails(s: seq<char>, c: nat, info: NetpbmInfo)
    requires c + 1 < |s| && info.sizeX * info.sizeY == 0
    ensures PixelsFrom(s, c, info, 0) == Err(if info.sizeX == 0 then DivideByZero else TooManyPixels)
  {
    if info.sizeX > 0 && info.sizeY > 0 {
      MulMonotone(1, info.sizeY, info.sizeX);
    }
  }

  /** LoadPlain on the text of SavePlain's items reads the header and the
      reading of every cell. */
  lemma TextRead(cells: seq<Color>, info: NetpbmInfo, nl: seq<char>)
    requires info.format == P1 || info.format == P3
    requires info.sizeX * info.sizeY == |cells|
    requires info.sizeX <= Int32Max && info.sizeY <= Int32Max
    requires Blank(nl) && |nl| > 0 && (|cells| > 0 || |nl| == 1)
    ensures DecodePlain(Text(Layout(cells, info, nl))) == Ok((ReadInfo(info), ReadingsFrom(cells, info.format, 0)))
  {
    var its := Layout(cells, info, nl);
    LayoutReads(cells, info, nl);
    LayoutWords(cells, info, nl);
    DecodeRead(Text(its), WordsOf(its), CursorsOf(its), cells, info);
  }
}
