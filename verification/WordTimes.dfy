/** From byte positions in a sentence to times in the audio, through the recogniser's word list. */
module WordTimes {
  import opened Bytes

  datatype Word = Word(text: seq<byte>, startTime: int, endTime: int)

  datatype Span = Span(start: int, end: int)

  /** Where word number `i` starts in the joined texts. */
  function StartOf(words: seq<Word>, i: nat): nat
    requires i <= |words|
  {
    if i == 0 then 0 else StartOf(words, i - 1) + |words[i - 1].text|
  }

  function Joined(words: seq<Word>): seq<byte> {
    if words == [] then []
    else
      var n := |words| - 1;
      Joined(words[..n]) + words[n].text
  }

  /** Word number `i` is the last one that starts at or before byte `x`. */
  ghost predicate LastUpTo(words: seq<Word>, x: int, i: nat) {
    && i < |words| && StartOf(words, i) <= x
    && forall j :: i < j < |words| ==> x < StartOf(words, j)
  }

  function FindLast(words: seq<Word>, x: nat, n: nat): (i: nat)
    requires 0 < n <= |words|
    ensures i < n
  {
    if n == 1 || StartOf(words, n - 1) <= x then n - 1 else FindLast(words, x, n - 1)
  }

  lemma {:induction false} FindLastIsLast(words: seq<Word>, x: nat, n: nat)
    requires 0 < n <= |words|
    ensures StartOf(words, FindLast(words, x, n)) <= x
    ensures forall j :: FindLast(words, x, n) < j < n ==> x < StartOf(words, j)
  {
    if n == 1 || StartOf(words, n - 1) <= x {
    } else {
      FindLastIsLast(words, x, n - 1);
    }
  }

  /** The start time of the last word that starts by byte `pos`, and the end time of the last word that
      starts before byte `endPos`; zeros when the recogniser sent no words. */
  function SpanOf(words: seq<Word>, pos: nat, endPos: nat): Span
    requires pos < endPos
  {
    if words == [] then Span(0, 0)
    else Span(words[FindLast(words, pos, |words|)].startTime, words[FindLast(words, endPos - 1, |words|)].endTime)
  }

  lemma {:induction false} StartsGrow(words: seq<Word>, i: nat, j: nat)
    requires i <= j <= |words|
    ensures StartOf(words, i) <= StartOf(words, j)
  {
    if i == j {
    } else {
      StartsGrow(words, i, j - 1);
    }
  }

  lemma LastIsUnique(words: seq<Word>, x: nat, i: nat)
    requires LastUpTo(words, x, i)
    ensures FindLast(words, x, |words|) == i
  {
    FindLastIsLast(words, x, |words|);
  }

  /** The walk over the word list, with its running byte count. */
  method Walk(words: seq<Word>, pos: nat, endPos: nat) returns (span: Span)
    requires pos < endPos
    ensures span == SpanOf(words, pos, endPos)
  {
    var start, prevEnd, count := 0, 0, 0;
    var i := 0;
    ghost var first := 0;
    while i < |words|
      invariant i <= |words| && count == StartOf(words, i)
      invariant i == 0 ==> start == 0 && prevEnd == 0
      invariant i > 0 ==> first < i && StartOf(words, first) <= pos && start == words[first].startTime
      invariant i > 0 ==> prevEnd == words[i - 1].endTime && StartOf(words, i - 1) < endPos
      invariant forall j :: first < j < i ==> pos < StartOf(words, j)
    {
      var word := words[i];
      if count <= pos {
        start, prevEnd, first := word.startTime, word.endTime, i;
      } else if count >= endPos {
        break;
      } else {
        prevEnd := word.endTime;
      }
      count := count + |word.text|;
      i := i + 1;
    }
    span := Span(start, prevEnd);
    if words != [] {
      assert i > 0;
      forall j | i <= j < |words| ensures endPos <= StartOf(words, j) { StartsGrow(words, i, j); }
      LastIsUnique(words, pos, first);
      LastIsUnique(words, endPos - 1, i - 1);
    }
  }

  // ----- Exactness

  /** Word number `i` holds byte `k` of the joined texts. */
  ghost predicate Holds(words: seq<Word>, i: nat, k: int) {
    i < |words| && StartOf(words, i) <= k < StartOf(words, i + 1)
  }

  /** Word number `i` shares a byte with [pos, endPos). */
  ghost predicate Meets(words: seq<Word>, i: nat, pos: nat, endPos: nat) {
    exists k :: pos <= k < endPos && Holds(words, i, k)
  }

  lemma {:induction false} JoinedLength(words: seq<Word>, n: nat)
    requires n <= |words|
    ensures |Joined(words[..n])| == StartOf(words, n)
  {
    if n == 0 {
    } else {
      JoinedLength(words, n - 1);
      assert words[..n][..n - 1] == words[..n - 1];
    }
  }

  /** Words hold bytes in order. */
  lemma HoldsInOrder(words: seq<Word>, i: nat, k: int, j: nat, l: int)
    requires Holds(words, i, k) && Holds(words, j, l) && k <= l
    ensures i <= j
  {
    if j < i { StartsGrow(words, j + 1, i); }
  }

  lemma LastHolds(words: seq<Word>, k: nat)
    requires k < |Joined(words)|
    ensures words != [] && Holds(words, FindLast(words, k, |words|), k)
  {
    JoinedLength(words, |words|);
    assert words[..|words|] == words;
    FindLastIsLast(words, k, |words|);
    var i := FindLast(words, k, |words|);
    if i + 1 < |words| { assert k < StartOf(words, i + 1); }
  }

  /** Times never run backwards, neither within a word nor from one word to the next. */
  ghost predicate Ordered(words: seq<Word>) {
    && (forall i :: 0 <= i < |words| ==> words[i].startTime <= words[i].endTime)
    && forall i, j :: 0 <= i < j < |words| ==> words[i].endTime <= words[j].startTime
  }

  /** A hit whose bytes lie inside the joined texts gets the start time of the word holding its first
      byte and the end time of the word holding its last byte. */
  lemma SpanEnds(words: seq<Word>, pos: nat, endPos: nat) returns (a: nat, b: nat)
    requires pos < endPos <= |Joined(words)|
    ensures Holds(words, a, pos) && Holds(words, b, endPos - 1) && a <= b
    ensures SpanOf(words, pos, endPos) == Span(words[a].startTime, words[b].endTime)
  {
    a, b := FindLast(words, pos, |words|), FindLast(words, endPos - 1, |words|);
    LastHolds(words, pos);
    LastHolds(words, endPos - 1);
    HoldsInOrder(words, a, pos, b, endPos - 1);
  }

  lemma MeetsIffBetween(words: seq<Word>, pos: nat, endPos: nat, a: nat, b: nat, i: nat)
    requires pos < endPos && Holds(words, a, pos) && Holds(words, b, endPos - 1) && i < |words| && words[i].text != []
    ensures Meets(words, i, pos, endPos) <==> a <= i <= b
  {
    if Meets(words, i, pos, endPos) {
      var k :| pos <= k < endPos && Holds(words, i, k);
      HoldsInOrder(words, a, pos, i, k);
      HoldsInOrder(words, i, k, b, endPos - 1);
    }
    if a <= i <= b {
      StartsGrow(words, i, b);
      StartsGrow(words, a + 1, i + 1);
      assert Holds(words, i, if StartOf(words, i) < pos then pos else StartOf(words, i));
    }
  }

  lemma MeetsHasText(words: seq<Word>, i: nat, pos: nat, endPos: nat)
    requires Meets(words, i, pos, endPos)
    ensures i < |words| && words[i].text != []
  {
  }

  lemma OrderedSpan(words: seq<Word>, a: nat, b: nat, i: nat)
    requires Ordered(words) && a <= b < |words| && i < |words|
    ensures if a <= i <= b then words[a].startTime <= words[i].startTime && words[i].endTime <= words[b].endTime
            else words[i].endTime <= words[a].startTime || words[b].endTime <= words[i].startTime
  {
  }

  /** The span is exactly that of the words meeting the hit: it contains all of them, and every other
      word that has any text lies entirely before or after it. */
  lemma SpanIsExact(words: seq<Word>, pos: nat, endPos: nat, i: nat)
    requires pos < endPos <= |Joined(words)| && Ordered(words) && i < |words| && words[i].text != []
    ensures var s := SpanOf(words, pos, endPos);
            if Meets(words, i, pos, endPos) then s.start <= words[i].startTime && words[i].endTime <= s.end
            else words[i].endTime <= s.start || s.end <= words[i].startTime
  {
    var a, b := SpanEnds(words, pos, endPos);
    MeetsIffBetween(words, pos, endPos, a, b, i);
    OrderedSpan(words, a, b, i);
  }

  lemma SpanContains(words: seq<Word>, pos: nat, endPos: nat, i: nat)
    requires pos < endPos <= |Joined(words)| && Ordered(words) && Meets(words, i, pos, endPos)
    ensures i < |words|
    ensures SpanOf(words, pos, endPos).start <= words[i].startTime && words[i].endTime <= SpanOf(words, pos, endPos).end
  {
    MeetsHasText(words, i, pos, endPos);
    SpanIsExact(words, pos, endPos, i);
  }
}
