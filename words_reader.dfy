/** FileWordsReader (Netpbm_Plain.cs): the cursor tokenizer that the plain
    loader pops header fields and pixel values from. */
module WordsReader {
  import opened Common

  /** The characters Pop treats as blanks. */
  predicate IsSpace(c: char) { c == ' ' || c == '\t' || c == '\n' || c == '\r' }

  /** s.AsSpan(i).IndexOf('\n'): the offset from i of the first newline at or
      after i, or -1 when there is none. */
  function NewlineOffset(s: seq<char>, i: nat): (r: int)
    requires i <= |s|
    ensures r == -1 || (0 <= r && i + r < |s| && s[i + r] == '\n')
    decreases |s| - i
  {
    if i == |s| then -1
    else if s[i] == '\n' then 0
    else
      var r := NewlineOffset(s, i + 1);
      if r == -1 then -1 else r + 1
  }

  /** NewlineOffset finds the first newline, and -1 means there is none. */
  lemma {:induction false} NewlineOffsetFirst(s: seq<char>, i: nat)
    requires i <= |s|
    ensures NewlineOffset(s, i) == -1 <==> forall k :: i <= k < |s| ==> s[k] != '\n'
    ensures NewlineOffset(s, i) != -1 ==> forall k :: i <= k < i + NewlineOffset(s, i) ==> s[k] != '\n'
    decreases |s| - i
  {
    if i < |s| && s[i] != '\n' {
      NewlineOffsetFirst(s, i + 1);
    }
  }

  /** Where a Pop started at i meets the first character of a word: blanks
      are stepped over, and a '#' moves the cursor to the next newline (or
      leaves it on the '#' when none follows) before the loop steps once
      more. |s| when no word remains. */
  function SkipGap(s: seq<char>, i: nat): (j: nat)
    requires i <= |s|
    ensures i <= j <= |s|
    ensures j < |s| ==> !IsSpace(s[j]) && s[j] != '#'
    decreases |s| - i
  {
    if i == |s| then i
    else if s[i] == '#' then
      var k := NewlineOffset(s, i);
      if k == -1 then SkipGap(s, i + 1) else SkipGap(s, i + k + 1)
    else if IsSpace(s[i]) then SkipGap(s, i + 1)
    else i
  }

  /** The first blank at or after j, or |s|: where a word begun at j stops. */
  function WordEnd(s: seq<char>, j: nat): (e: nat)
    requires j <= |s|
    ensures j <= e <= |s|
    ensures e < |s| ==> IsSpace(s[e])
    decreases |s| - j
  {
    if j == |s| || IsSpace(s[j]) then j else WordEnd(s, j + 1)
  }

  /** No blank lies inside the word. */
  lemma {:induction false} WordEndNoSpace(s: seq<char>, j: nat)
    requires j <= |s|
    ensures forall k :: j <= k < WordEnd(s, j) ==> !IsSpace(s[k])
    decreases |s| - j
  {
    if j < |s| && !IsSpace(s[j]) {
      WordEndNoSpace(s, j + 1);
    }
  }

  /** How many characters of t are not '#': inside a word Pop steps over a
      '#' without counting it. */
  function CountNonHash(t: seq<char>): (n: nat)
    ensures n <= |t|
  {
    if t == [] then 0
    else CountNonHash(t[..|t| - 1]) + (if t[|t| - 1] == '#' then 0 else 1)
  }

  /** The word a Pop from cursor i returns and the cursor it leaves: the
      returned span is the last `wordLenght` characters before the cursor. */
  function PopSpec(s: seq<char>, i: nat): (r: (seq<char>, nat))
    requires i <= |s|
    ensures i <= r.1 <= |s|
    ensures r.1 == |s| || IsSpace(s[r.1])
    ensures r.0 == [] <==> SkipGap(s, i) == |s|
    ensures r.0 == [] ==> r.1 == |s|
    ensures i < |s| ==> i < r.1
  {
    var j := SkipGap(s, i);
    var e := WordEnd(s, j);
    var n := CountNonHash(s[j..e]);
    WordEndNoSpace(s, j);
    assert j < |s| ==> n >= 1 by {
      if j < |s| {
        assert s[j..e][..1] == [s[j]];
        CountNonHashPrefix(s[j..e], 1);
      }
    }
    (s[e - n..e], e)
  }

  /** The token Pop returns holds no blank. */
  lemma PopTokenHasNoBlank(s: seq<char>, i: nat)
    requires i <= |s|
    ensures forall k :: 0 <= k < |PopSpec(s, i).0| ==> !IsSpace(PopSpec(s, i).0[k])
  {
    var j := SkipGap(s, i);
    var e := WordEnd(s, j);
    WordEndNoSpace(s, j);
    var n := CountNonHash(s[j..e]);
    assert PopSpec(s, i).0 == s[e - n..e];
  }

  /** Counting non-'#' characters cannot shrink as the string grows. */
  lemma {:induction false} CountNonHashPrefix(t: seq<char>, m: nat)
    requires m <= |t|
    ensures CountNonHash(t[..m]) <= CountNonHash(t)
    decreases |t|
  {
    if m < |t| {
      assert t[..|t| - 1][..m] == t[..m];
      CountNonHashPrefix(t[..|t| - 1], m);
    } else {
      assert t[..m] == t;
    }
  }

  /** Leading blanks before a word are skipped. */
  lemma {:induction false} SkipGapOverSpaces(s: seq<char>, i: nat, j: nat)
    requires i <= j <= |s|
    requires forall k :: i <= k < j ==> IsSpace(s[k])
    ensures SkipGap(s, i) == SkipGap(s, j)
    decreases j - i
  {
    if i < j {
      SkipGapOverSpaces(s, i + 1, j);
    }
  }

  /** A word that stops at a blank or the end, with no '#' in it and only
      blanks before it, is what Pop returns, and the cursor stops on the
      blank after it. */
  lemma PopWord(s: seq<char>, i: nat, j: nat, e: nat)
    requires i <= j < e <= |s|
    requires forall k :: i <= k < j ==> IsSpace(s[k])
    requires forall k :: j <= k < e ==> !IsSpace(s[k]) && s[k] != '#'
    requires e == |s| || IsSpace(s[e])
    ensures PopSpec(s, i) == (s[j..e], e)
  {
    SkipGapOverSpaces(s, i, j);
    WordEndOverWord(s, j, e);
    CountNonHashNoHash(s[j..e]);
  }

  lemma {:induction false} CountNonHashNoHash(t: seq<char>)
    requires forall k :: 0 <= k < |t| ==> t[k] != '#'
    ensures CountNonHash(t) == |t|
  {
    if t != [] {
      CountNonHashNoHash(t[..|t| - 1]);
    }
  }

  lemma {:induction false} WordEndOverWord(s: seq<char>, j: nat, e: nat)
    requires j <= e <= |s|
    requires forall k :: j <= k < e ==> !IsSpace(s[k])
    requires e == |s| || IsSpace(s[e])
    ensures WordEnd(s, j) == e
    decreases e - j
  {
    if j < e {
      WordEndOverWord(s, j + 1, e);
    }
  }

  /** A '#' met before any word character skips through the next newline:
      Pop from the '#' behaves as Pop from just past that newline. */
  lemma PopSkipsComment(s: seq<char>, i: nat, n: nat)
    requires i < n < |s| && s[i] == '#' && s[n] == '\n'
    requires forall k :: i <= k < n ==> s[k] != '\n'
    ensures PopSpec(s, i) == PopSpec(s, n + 1)
  {
    NewlineOffsetFirst(s, i);
    assert NewlineOffset(s, i) == n - i;
  }

  /** A '#' with no newline after it is skipped alone: the text of the
      comment is read as words. */
  lemma PopHashWithoutNewline(s: seq<char>, i: nat)
    requires i < |s| && s[i] == '#'
    requires forall k :: i <= k < |s| ==> s[k] != '\n'
    ensures PopSpec(s, i) == PopSpec(s, i + 1)
  {
    NewlineOffsetFirst(s, i);
  }

  /** Text that is blank from the cursor on holds no more words: Pop
      returns the empty token and moves the cursor to the end. */
  lemma PopAllBlank(s: seq<char>, i: nat)
    requires i <= |s|
    requires forall k :: i <= k < |s| ==> IsSpace(s[k])
    ensures PopSpec(s, i) == ([], |s|)
  {
    SkipGapOverSpaces(s, i, |s|);
  }

  /** How many characters of t are '#'. */
  function HashCount(t: seq<char>): (h: nat)
    ensures h + CountNonHash(t) == |t|
  {
    if t == [] then 0
    else HashCount(t[..|t| - 1]) + (if t[|t| - 1] == '#' then 1 else 0)
  }

  /** A '#' inside a word is stepped over uncounted, so the returned span
      is as long as the word's other characters and ends where the word
      ends: it starts one character late for each '#', and keeps them. */
  lemma PopHashInsideWord(s: seq<char>, i: nat, j: nat, e: nat)
    requires i <= j < e <= |s|
    requires forall k :: i <= k < j ==> IsSpace(s[k])
    requires s[j] != '#' && forall k :: j <= k < e ==> !IsSpace(s[k])
    requires e == |s| || IsSpace(s[e])
    ensures PopSpec(s, i) == (s[j + HashCount(s[j..e])..e], e)
  {
    SkipGapOverSpaces(s, i, j);
    WordEndOverWord(s, j, e);
  }

  /** The reader over the text of one file. `length` and `lengthMinusOne`
      are the source's `Lenght` and `LenghtMinusOne`, fixed at Load. */
  class FileWordsReader {
    var fileContent: seq<char>
    var idx: int
    var length: int
    var lengthMinusOne: int

    ghost predicate Valid()
      reads this
    {
      length == |fileContent| && lengthMinusOne == length - 1 && 0 <= idx <= length
    }

    /** new FileWordsReader(name).Load(), given the text the file holds. */
    constructor Load(content: seq<char>)
      ensures Valid() && fileContent == content && idx == 0
    {
      fileContent := content;
      idx := 0;
      length := |content|;
      lengthMinusOne := |content| - 1;
    }

    /** IsEmpty: at most one character lies at or after the cursor. */
    function IsEmpty(): (b: bool)
      reads this
      requires Valid()
      ensures b <==> idx + 1 >= |fileContent|
    {
      idx >= lengthMinusOne
    }

    /** Pop: the next word and the cursor after it, as PopSpec says. The
        cursor moves in a local and is stored back once, as nothing can
        observe the field while the loop runs. */
    method Pop() returns (word: seq<char>)
      requires Valid()
      modifies this`idx
      ensures Valid()
      ensures word == PopSpec(fileContent, old(idx)).0
      ensures idx == PopSpec(fileContent, old(idx)).1
    {
      var s, i, n := fileContent, idx, length;
      ghost var start: nat := idx;
      ghost var j := SkipGap(s, start);
      var wordLength := 0;
      while i < n
        invariant n == |s| && start <= i <= n
        invariant InPop(s, j, i, wordLength)
        decreases n - i
      {
        if s[i] == '#' {
          if wordLength == 0 {
            var k := NewlineOffset(s, i);
            GapStep(s, i);
            if k != -1 {
              i := i + k;
            }
          } else {
            InWordStep(s, j, i, wordLength);
          }
        } else if IsSpace(s[i]) {
          if wordLength != 0 {
            break;
          }
          GapStep(s, i);
        } else {
          InWordStep(s, j, i, wordLength);
          wordLength := wordLength + 1;
        }
        i := i + 1;
      }
      PopFinish(s, start, j, i, wordLength);
      word := s[i - wordLength..i];
      idx := i;
    }
  }

  /** The state of Pop's loop at cursor i, with j where the word starts:
      still in the gap while nothing is counted, inside the word otherwise. */
  ghost predicate InPop(s: seq<char>, j: nat, i: nat, wordLength: nat)
    requires i <= |s|
  {
    && (wordLength == 0 ==> SkipGap(s, i) == j)
    && (wordLength > 0 ==> j < i <= WordEnd(s, j) && WordEnd(s, i) == WordEnd(s, j))
    && (wordLength > 0 ==> wordLength == CountNonHash(s[j..i]))
  }

  lemma GapStep(s: seq<char>, i: nat)
    requires i < |s| && (s[i] == '#' || IsSpace(s[i]))
    ensures s[i] == '#' && NewlineOffset(s, i) != -1 ==>
      SkipGap(s, i) == SkipGap(s, i + NewlineOffset(s, i) + 1)
    ensures (s[i] != '#' || NewlineOffset(s, i) == -1) ==> SkipGap(s, i) == SkipGap(s, i + 1)
  {
  }

  lemma InWordStep(s: seq<char>, j: nat, i: nat, wordLength: nat)
    requires i < |s| && !IsSpace(s[i]) && InPop(s, j, i, wordLength)
    requires wordLength == 0 ==> s[i] != '#'
    ensures InPop(s, j, i + 1, if s[i] == '#' then wordLength else wordLength + 1)
  {
    assert s[j..i + 1][..i - j] == s[j..i];
  }

  lemma PopFinish(s: seq<char>, start: nat, j: nat, i: nat, wordLength: nat)
    requires start <= i <= |s| && j == SkipGap(s, start) && InPop(s, j, i, wordLength)
    requires i == |s| || (IsSpace(s[i]) && wordLength > 0)
    ensures PopSpec(s, start) == (s[i - wordLength..i], i)
  {
  }
}
